/**
 * JavaScript's relational operators on two strings: `a < b` compares the
 * strings character by character, and a proper prefix sorts first.
 * Collection days arrive as ISO dates (`2024-01-05`), for which this order
 * is the calendar order.
 */
module JsOrder {

  /** `Before(a, b)` is the JavaScript comparison `a < b` (equivalently `b > a`). */
  predicate Before(a: string, b: string)
    decreases |a|
  {
    if a == [] then b != []
    else if b == [] then false
    else if a[0] != b[0] then a[0] < b[0]
    else Before(a[1..], b[1..])
  }

  lemma {:induction false} BeforeIrreflexive(a: string)
    ensures !Before(a, a)
    decreases |a|
  {
    if a != [] {
      BeforeIrreflexive(a[1..]);
    }
  }

  lemma {:induction false} BeforeAsymmetric(a: string, b: string)
    requires Before(a, b)
    ensures !Before(b, a)
    decreases |a|
  {
    if a != [] && b != [] && a[0] == b[0] {
      BeforeAsymmetric(a[1..], b[1..]);
    }
  }

  lemma {:induction false} BeforeTransitive(a: string, b: string, c: string)
    requires Before(a, b) && Before(b, c)
    ensures Before(a, c)
    decreases |a|
  {
    if a != [] && a[0] == b[0] && b[0] == c[0] {
      BeforeTransitive(a[1..], b[1..], c[1..]);
    }
  }

  /** Any two different strings are ordered one way or the other. */
  lemma {:induction false} BeforeTotal(a: string, b: string)
    ensures a == b || Before(a, b) || Before(b, a)
    decreases |a|
  {
    if a != [] && b != [] && a[0] == b[0] {
      BeforeTotal(a[1..], b[1..]);
      if a[1..] == b[1..] {
        assert a == [a[0]] + a[1..] && b == [b[0]] + b[1..];
      }
    }
  }

  /** `a < b` and `b <= c` give `a < c`. */
  lemma BeforeThenNotBefore(a: string, b: string, c: string)
    requires Before(a, b) && !Before(c, b)
    ensures Before(a, c)
  {
    BeforeTotal(b, c);
    if b != c {
      BeforeTransitive(a, b, c);
    }
  }

  /** `a <= b` and `b <= c` give `a <= c`. */
  lemma NotBeforeTransitive(a: string, b: string, c: string)
    requires !Before(b, a) && !Before(c, b)
    ensures !Before(c, a)
  {
    if Before(c, a) {
      BeforeTotal(a, b);
      if a == b {
        assert false;
      } else {
        BeforeThenNotBefore(c, a, b);
        assert false;
      }
    }
  }

  /** `a` and `b` agree before position `i` and `a` has the smaller character at `i`. */
  ghost predicate DifferAt(a: string, b: string, i: int) {
    && 0 <= i < |a| && i < |b|
    && (forall j | 0 <= j < i :: a[j] == b[j])
    && a[i] < b[i]
  }

  /**
   * The lexicographic order, read directly: `a` is a proper prefix of `b`,
   * or the first position where they differ holds the smaller character in `a`.
   */
  ghost predicate LexLess(a: string, b: string) {
    || (|a| < |b| && a == b[..|a|])
    || (exists i :: DifferAt(a, b, i))
  }

  /** `Before` is exactly the lexicographic order. */
  lemma {:induction false} BeforeIsLexLess(a: string, b: string)
    ensures Before(a, b) <==> LexLess(a, b)
    decreases |a|
  {
    if a == [] || b == [] {
    } else if a[0] != b[0] {
      var a0, b0 := a[0], b[0];
      if a[0] < b[0] {
        assert DifferAt(a, b, 0);
      }
      forall i | DifferAt(a, b, i)
        ensures i == 0
      {
        assert i > 0 ==> a0 == b0;
      }
      if |a| < |b| {
        assert b[..|a|][0] == b0;
      }
    } else {
      var a', b' := a[1..], b[1..];
      BeforeIsLexLess(a', b');
      forall i | DifferAt(a', b', i)
        ensures DifferAt(a, b, i + 1)
      {
        forall j | 0 <= j < i + 1
          ensures a[j] == b[j]
        {
          if j > 0 {
            assert a'[j - 1] == b'[j - 1];
          }
        }
      }
      forall i | DifferAt(a, b, i)
        ensures i > 0 && DifferAt(a', b', i - 1)
      {
        forall j | 0 <= j < i - 1
          ensures a'[j] == b'[j]
        {
          assert a[j + 1] == b[j + 1];
        }
      }
      assert a == [a[0]] + a' && b == [b[0]] + b';
      assert |a'| < |b'| ==> (a' == b'[..|a'|] <==> a == b[..|a|]);
    }
  }
}
