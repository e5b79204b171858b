/**
  The lexical pre-filter of the duplicate cascade: Jaccard similarity of the
  sets of lower-cased, whitespace-separated tokens of two texts.
 */
module Jaccard {
  import opened Text

  /** `new Set(s.toLowerCase().split(/\s+/))`. */
  function TokenSet(s: string): (r: set<string>)
    ensures r != {}
    ensures forall t :: t in r ==> NoSpace(t)
  {
    var tokens := Split(Lower(s));
    var r := set t | t in tokens;
    assert tokens[0] in r;
    r
  }

  /** The tokens are the words of the lower-cased text: the pieces that,
      joined by single spaces, rebuild it with its whitespace collapsed. */
  lemma TokenSetIsWords(s: string)
    ensures forall t :: t in TokenSet(s) <==> t in Split(Lower(s))
    ensures Join(Split(Lower(s))) == CollapseSpaces(Lower(s))
  {
    SplitJoinsToCollapsed(Lower(s));
  }

  /** A proper subset of a finite set is strictly smaller. */
  lemma {:induction false} SubsetCardinality<T>(a: set<T>, b: set<T>)
    requires a <= b
    ensures |a| <= |b|
    ensures a != b ==> |a| < |b|
    decreases |b|
  {
    if b != {} {
      var x :| x in b;
      if x in a {
        assert a != b ==> a - {x} != b - {x} by {
          if a != b {
            var y :| y in b && y !in a;
            assert y in b - {x} && y !in a - {x};
          }
        }
        SubsetCardinality(a - {x}, b - {x});
      } else {
        SubsetCardinality(a, b - {x});
      }
    }
  }

  /** `intersection.size / union.size`. The union is never empty, because
      splitting always yields at least one token. */
  function Jaccard(a: string, b: string): (r: real)
    ensures 0.0 <= r <= 1.0
  {
    var sa, sb := TokenSet(a), TokenSet(b);
    SubsetCardinality(sa * sb, sa + sb);
    var t :| t in sa;
    assert t in sa + sb;
    Fraction(|sa * sb|, |sa + sb|);
    (|sa * sb| as real) / (|sa + sb| as real)
  }

  lemma Fraction(n: nat, d: nat)
    requires n <= d && 0 < d
    ensures 0.0 <= (n as real) / (d as real) <= 1.0
  {
    var q := (n as real) / (d as real);
    assert q * (d as real) == n as real;
  }

  lemma JaccardSymmetric(a: string, b: string)
    ensures Jaccard(a, b) == Jaccard(b, a)
  {
    assert TokenSet(a) * TokenSet(b) == TokenSet(b) * TokenSet(a);
    assert TokenSet(a) + TokenSet(b) == TokenSet(b) + TokenSet(a);
  }

  /** The overlap ratio of two sets, the first of them non-empty, is 1
      exactly when the sets are equal. */
  lemma OverlapOneIffEqual<T>(sa: set<T>, sb: set<T>)
    requires sa != {}
    ensures (|sa * sb| as real) / (|sa + sb| as real) == 1.0 <==> sa == sb
  {
    var i, u := sa * sb, sa + sb;
    var t :| t in sa;
    assert t in u;
    if sa == sb {
      assert i == u;
    } else {
      SubsetCardinality(i, u);
      assert i != u by {
        if x :| x in sa && x !in sb {
          assert x in u && x !in i;
        } else {
          var y :| y in sb && y !in sa;
          assert y in u && y !in i;
        }
      }
      var q := (|i| as real) / (|u| as real);
      assert q * (|u| as real) == |i| as real;
    }
  }

  /** The overlap ratio is 0 exactly when the sets are disjoint. */
  lemma OverlapZeroIffDisjoint<T>(sa: set<T>, sb: set<T>)
    requires sa != {}
    ensures (|sa * sb| as real) / (|sa + sb| as real) == 0.0 <==> sa !! sb
  {
    var t :| t in sa;
    assert t in sa + sb;
    if !(sa !! sb) {
      var x :| x in sa && x in sb;
      assert x in sa * sb;
      var q := (|sa * sb| as real) / (|sa + sb| as real);
      assert q * (|sa + sb| as real) == |sa * sb| as real;
    }
  }

  /** The ratio is 1 exactly when both texts have the same token set. */
  lemma JaccardOneIffSameTokens(a: string, b: string)
    ensures Jaccard(a, b) == 1.0 <==> TokenSet(a) == TokenSet(b)
  {
    OverlapOneIffEqual(TokenSet(a), TokenSet(b));
  }

  /** The ratio is 0 exactly when the texts share no token. */
  lemma JaccardZeroIffDisjoint(a: string, b: string)
    ensures Jaccard(a, b) == 0.0 <==> TokenSet(a) !! TokenSet(b)
  {
    OverlapZeroIffDisjoint(TokenSet(a), TokenSet(b));
  }

  /** Two empty texts both split into the single empty token, so their
      similarity is 1 (not 0 and not a division by zero). */
  lemma JaccardOfEmptyTexts()
    ensures Jaccard("", "") == 1.0
  {
    assert Split(Lower("")) == [""];
    assert TokenSet("") == {""};
  }
}
