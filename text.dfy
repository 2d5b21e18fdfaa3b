/** String helpers with the meaning Python's str methods give them in nodes.py. */
module Text {

  datatype Option<T> = None | Some(value: T)

  /** str.startswith */
  predicate StartsWith(s: string, prefix: string) {
    |prefix| <= |s| && s[..|prefix|] == prefix
  }

  /** str.endswith */
  predicate EndsWith(s: string, suffix: string) {
    |suffix| <= |s| && s[|s| - |suffix|..] == suffix
  }

  /** s.replace(target, replacement) for a non-empty target: every occurrence,
      found left to right without overlap, is replaced. */
  function Replace(s: string, target: string, replacement: string): string
    requires target != []
    decreases |s|
  {
    if |s| < |target| then s
    else if s[..|target|] == target then replacement + Replace(s[|target|..], target, replacement)
    else [s[0]] + Replace(s[1..], target, replacement)
  }

  /** A prefix that holds no first character of the target is copied unchanged. */
  lemma {:induction false} ReplaceSkips(p: string, rest: string, target: string, replacement: string)
    requires target != [] && target[0] !in p
    ensures Replace(p + rest, target, replacement) == p + Replace(rest, target, replacement)
    decreases |p|
  {
    if p != [] {
      var s := p + rest;
      assert s[0] == p[0];
      assert s[1..] == p[1..] + rest;
      ReplaceSkips(p[1..], rest, target, replacement);
      if |s| < |target| {
        assert Replace(rest, target, replacement) == rest;
        assert Replace(s, target, replacement) == s;
      } else {
        assert s[..|target|][0] == p[0] && p[0] in p;
        assert Replace(s, target, replacement) == [p[0]] + Replace(s[1..], target, replacement);
        assert [p[0]] + (p[1..] + Replace(rest, target, replacement)) == p + Replace(rest, target, replacement);
      }
    } else {
      assert p + rest == rest;
    }
  }

  /** An occurrence at the front is replaced and the scan resumes after it. */
  lemma ReplaceHead(rest: string, target: string, replacement: string)
    requires target != []
    ensures Replace(target + rest, target, replacement) == replacement + Replace(rest, target, replacement)
  {
    var s := target + rest;
    assert s[..|target|] == target;
    assert s[|target|..] == rest;
  }

  /** sep.join(parts) */
  function Join(parts: seq<string>, sep: string): string
    decreases |parts|
  {
    if |parts| == 0 then ""
    else if |parts| == 1 then parts[0]
    else parts[0] + sep + Join(parts[1..], sep)
  }

  /** Python's ordering of str values: code point by code point, a proper prefix first. */
  predicate Le(a: string, b: string)
    decreases |a|
  {
    a == [] || (b != [] && (a[0] < b[0] || (a[0] == b[0] && Le(a[1..], b[1..]))))
  }

  lemma {:induction false} LeReflexive(a: string)
    ensures Le(a, a)
    decreases |a|
  {
    if a != [] {
      LeReflexive(a[1..]);
    }
  }

  lemma {:induction false} LeTotal(a: string, b: string)
    ensures Le(a, b) || Le(b, a)
    decreases |a|
  {
    if a != [] && b != [] && a[0] == b[0] {
      LeTotal(a[1..], b[1..]);
    }
  }

  lemma {:induction false} LeAntisymmetric(a: string, b: string)
    requires Le(a, b) && Le(b, a)
    ensures a == b
    decreases |a|
  {
    if a != [] && b != [] {
      LeAntisymmetric(a[1..], b[1..]);
      assert a == [a[0]] + a[1..];
      assert b == [b[0]] + b[1..];
    }
  }

  lemma {:induction false} LeTransitive(a: string, b: string, c: string)
    requires Le(a, b) && Le(b, c)
    ensures Le(a, c)
    decreases |a|
  {
    if a != [] && a[0] == b[0] && b[0] == c[0] {
      LeTransitive(a[1..], b[1..], c[1..]);
    }
  }
}
