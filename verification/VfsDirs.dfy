// The directory test: one lower_bound probe into the ordered path map answers
// whether any stored path lies under "<p>/".

module VfsDirs {
  import opened Common

  /** The order of std::map<std::string, ...>: lexicographic by character. */
  predicate LexLe(a: string, b: string) {
    a == "" || (b != "" && (a[0] < b[0] || (a[0] == b[0] && LexLe(a[1..], b[1..]))))
  }

  lemma {:induction false} LexTotal(a: string, b: string)
    ensures LexLe(a, b) || LexLe(b, a)
  {
    if a != "" && b != "" && a[0] == b[0] { LexTotal(a[1..], b[1..]); }
  }

  lemma {:induction false} LexTrans(a: string, b: string, c: string)
    requires LexLe(a, b) && LexLe(b, c)
    ensures LexLe(a, c)
  {
    if a != "" && a[0] == b[0] && b[0] == c[0] { LexTrans(a[1..], b[1..], c[1..]); }
  }

  lemma {:induction false} LexAntisym(a: string, b: string)
    requires LexLe(a, b) && LexLe(b, a)
    ensures a == b
  {
    if a != "" {
      LexAntisym(a[1..], b[1..]);
      assert a == [a[0]] + a[1..] && b == [b[0]] + b[1..];
    }
  }

  lemma {:induction false} PrefixBelow(p: string, k: string)
    requires p <= k
    ensures LexLe(p, k)
  {
    if p != "" { PrefixBelow(p[1..], k[1..]); }
  }

  /** The strings with prefix p form an interval that starts at p. */
  lemma {:induction false} PrefixInterval(p: string, x: string, k: string)
    requires p <= k && LexLe(p, x) && LexLe(x, k)
    ensures p <= x
  {
    if p != "" {
      assert x != "" && x[0] == k[0] == p[0];
      PrefixInterval(p[1..], x[1..], k[1..]);
      assert p == [p[0]] + p[1..] && x == [x[0]] + x[1..];
    }
  }

  predicate IsLeast(keys: set<string>, m: string) {
    m in keys && forall k :: k in keys ==> LexLe(m, k)
  }

  lemma {:induction false} FindLeast(keys: set<string>) returns (m: string)
    requires keys != {}
    ensures IsLeast(keys, m)
  {
    m :| m in keys;
    LexTotal(m, m);
    var rest := keys - {m};
    if rest != {} {
      var low := FindLeast(rest);
      LexTotal(m, low);
      if !LexLe(m, low) {
        m := low;
      } else {
        forall k | k in rest ensures LexLe(m, k) { LexTrans(m, low, k); }
      }
    }
    forall k | k in keys ensures LexLe(m, k) {
      if k !in rest { assert keys == rest + {k}; }
    }
  }

  lemma LeastExists(keys: set<string>)
    requires keys != {}
    ensures exists m :: IsLeast(keys, m)
  {
    var m := FindLeast(keys);
  }

  lemma LeastUnique(keys: set<string>)
    ensures forall m, m' :: IsLeast(keys, m) && IsLeast(keys, m') ==> m == m'
  {
    forall m, m' | IsLeast(keys, m) && IsLeast(keys, m') ensures m == m' { LexAntisym(m, m'); }
  }

  /** std::map::lower_bound on the keys: the first key not below p. */
  function LowerBound(keys: set<string>, p: string): (r: Option<string>)
    ensures r.None? <==> forall k :: k in keys ==> !LexLe(p, k)
    ensures r.Some? ==> r.value in keys && LexLe(p, r.value)
    ensures r.Some? ==> forall k :: k in keys && LexLe(p, k) ==> LexLe(r.value, k)
  {
    var above := set k | k in keys && LexLe(p, k);
    if above == {} then assert forall k :: k in keys && LexLe(p, k) ==> k in above; None
    else
      LeastExists(above);
      LeastUnique(above);
      var m :| IsLeast(above, m);
      Some(m)
  }

  /** The probe succeeds exactly when some key has the prefix. */
  lemma ProbeIff(keys: set<string>, p: string)
    ensures (LowerBound(keys, p).Some? && p <= LowerBound(keys, p).value) <==> exists k :: k in keys && p <= k
  {
    hide LowerBound, LexLe;
    if k :| k in keys && p <= k {
      PrefixBelow(p, k);
      PrefixInterval(p, LowerBound(keys, p).value, k);
    }
  }

  function Trim(p: string): (t: string)
    ensures t <= p
  {
    if |p| > 1 && p[|p| - 1] == '/' then Trim(p[..|p| - 1]) else p
  }

  method TrimSlashes(path: string) returns (p: string)
    ensures p == Trim(path)
  {
    p := path;
    while |p| > 1 && p[|p| - 1] == '/'
      invariant Trim(path) == Trim(p)
      decreases |p|
    {
      p := p[..|p| - 1];
    }
  }

  /** is_dir: registered, or some stored file lives under it. */
  method IsDir(store: set<string>, dirs: set<string>, path: string) returns (r: bool)
    ensures r <==> Trim(path) in dirs || exists k :: k in store && Trim(path) + "/" <= k
  {
    hide LowerBound, LexLe;
    var p := TrimSlashes(path);
    if p in dirs {
      return true;
    }
    var prefix := p + "/";
    ProbeIff(store, prefix);
    var it := LowerBound(store, prefix);
    r := it.Some? && prefix <= it.value;
  }
}
