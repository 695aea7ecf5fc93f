/** Notions that several modules share. */
module Basics {
  datatype Option<+T> = None | Some(value: T)

  /** `sub` occurs in `s`. */
  predicate Contains(s: string, sub: string) {
    sub <= s || (s != [] && Contains(s[1..], sub))
  }

  lemma {:induction false} ContainsExactly(s: string, sub: string)
    ensures Contains(s, sub) <==> exists a, b :: s == a + sub + b
    decreases |s|
  {
    if sub <= s {
      assert s == [] + sub + s[|sub|..];
    } else if s != [] {
      ContainsExactly(s[1..], sub);
      if a, b :| s[1..] == a + sub + b {
        assert s == ([s[0]] + a) + sub + b;
      }
      if a, b :| s == a + sub + b {
        assert a != [] by {
          assert a == [] ==> s == sub + b;
        }
        assert s[1..] == a[1..] + sub + b;
      }
    }
  }

  lemma SubsetSize(a: set<string>, b: set<string>)
    requires a <= b
    ensures |a| <= |b|
  {
    if a != {} {
      var x :| x in a;
      SubsetSize(a - {x}, b - {x});
    }
  }
}
