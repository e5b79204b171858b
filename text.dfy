/**
  Character-level string helpers shared by both pipelines: the whitespace class
  of JavaScript regular expressions and `String.prototype.trim`, lower-casing,
  trimming, whitespace collapsing, `split(/\s+/)`, prefix windows and substring
  search.
 */
module Text {

  /** JavaScript's WhiteSpace and LineTerminator code points: the class `\s`
      matches and `trim` removes. */
  predicate IsSpace(c: char) {
    || c == ' ' || c == '\t' || c == '\n' || c == '\r'
    || c == '\U{000B}' || c == '\U{000C}' || c == '\U{00A0}' || c == '\U{1680}'
    || ('\U{2000}' <= c <= '\U{200A}')
    || c == '\U{2028}' || c == '\U{2029}' || c == '\U{202F}' || c == '\U{205F}'
    || c == '\U{3000}' || c == '\U{FEFF}'
  }

  predicate AllSpace(s: string) {
    forall i :: 0 <= i < |s| ==> IsSpace(s[i])
  }

  predicate NoSpace(s: string) {
    forall i :: 0 <= i < |s| ==> !IsSpace(s[i])
  }

  /** Lower-case mapping of one character: ASCII, Latin-1 and basic Cyrillic
      capitals are mapped to their small letters, every other character is
      kept. */
  function LowerChar(c: char): (r: char)
    ensures IsSpace(r) <==> IsSpace(c)
    ensures 'A' <= c <= 'Z' ==> r == (c as int + 32) as char
    ensures c < '\U{0080}' && !('A' <= c <= 'Z') ==> r == c
    ensures '\U{0080}' <= c ==> '\U{0080}' <= r
  {
    if 'A' <= c <= 'Z' then (c as int + 32) as char
    else if ('\U{00C0}' <= c <= '\U{00DE}') && c != '\U{00D7}' then (c as int + 32) as char
    else if '\U{0410}' <= c <= '\U{042F}' then (c as int + 32) as char
    else if '\U{0400}' <= c <= '\U{040F}' then (c as int + 80) as char
    else c
  }

  /** `toLowerCase()`, character by character. */
  function Lower(s: string): (r: string)
    ensures |r| == |s|
    ensures forall i :: 0 <= i < |s| ==> r[i] == LowerChar(s[i])
  {
    seq(|s|, i requires 0 <= i < |s| => LowerChar(s[i]))
  }

  /** Lower-casing an already lower-cased text changes nothing. */
  lemma {:induction false} LowerIdempotent(s: string)
    ensures Lower(Lower(s)) == Lower(s)
  {
    forall i | 0 <= i < |s| ensures LowerChar(LowerChar(s[i])) == LowerChar(s[i]) {
    }
  }

  /** Number of whitespace characters at the start of `s`. */
  function LeadingSpaces(s: string): (k: nat)
    ensures k <= |s|
    ensures AllSpace(s[..k])
    ensures k < |s| ==> !IsSpace(s[k])
  {
    if s == [] || !IsSpace(s[0]) then 0
    else
      var k := 1 + LeadingSpaces(s[1..]);
      assert s[..k] == [s[0]] + s[1..][..k - 1];
      k
  }

  /** `LeadingSpaces` is the length of the whitespace run that starts `s`. */
  lemma {:induction false} LeadingSpacesUnique(s: string, k: nat)
    requires k <= |s| && AllSpace(s[..k]) && (k < |s| ==> !IsSpace(s[k]))
    ensures LeadingSpaces(s) == k
  {
    if k > 0 {
      assert IsSpace(s[..k][0]);
      assert s[1..][..k - 1] == s[..k][1..];
      LeadingSpacesUnique(s[1..], k - 1);
    }
  }

  /** Index where the trailing whitespace run of `s` begins. */
  function TrailingStart(s: string): (k: nat)
    ensures k <= |s|
    ensures AllSpace(s[k..])
    ensures 0 < k ==> !IsSpace(s[k - 1])
  {
    if s == [] || !IsSpace(s[|s| - 1]) then |s|
    else
      var p := s[..|s| - 1];
      var k := TrailingStart(p);
      assert s[k..] == p[k..] + [s[|s| - 1]];
      k
  }

  /** `trim()`: the longest middle part of `s` that neither starts nor ends
      with whitespace, everything cut off on either side being whitespace. */
  function Trim(s: string): (r: string)
    ensures |r| <= |s|
    ensures r == [] || (!IsSpace(r[0]) && !IsSpace(r[|r| - 1]))
    ensures exists i :: 0 <= i <= |s| - |r| && s[i..i + |r|] == r && AllSpace(s[..i]) && AllSpace(s[i + |r|..])
  {
    var a := LeadingSpaces(s);
    var t := s[a..];
    var b := TrailingStart(t);
    assert s[a..a + b] == t[..b];
    assert s[a + b..] == t[b..];
    assert b > 0 ==> t[b - 1] == s[a + b - 1];
    t[..b]
  }

  /** A text that neither starts nor ends with whitespace is its own trim. */
  lemma TrimOfTrimmed(s: string)
    requires s == [] || (!IsSpace(s[0]) && !IsSpace(s[|s| - 1]))
    ensures Trim(s) == s
  {
    assert LeadingSpaces(s) == 0;
    assert s[0..] == s;
    assert TrailingStart(s) == |s|;
  }

  /** `replace(/\s+/g, ' ')`: every maximal whitespace run becomes one space. */
  function CollapseSpaces(s: string): (r: string)
    ensures |r| <= |s|
    ensures r == [] <==> s == []
    ensures r != [] ==> (IsSpace(r[0]) <==> IsSpace(s[0]))
    ensures Collapsed(r)
    decreases |s|
  {
    if s == [] then []
    else if IsSpace(s[0]) then
      var k := LeadingSpaces(s);
      [' '] + CollapseSpaces(s[k..])
    else
      [s[0]] + CollapseSpaces(s[1..])
  }

  /** A non-empty whitespace run becomes one space. */
  lemma CollapseOfSpaceRun(s: string)
    requires s != [] && AllSpace(s)
    ensures CollapseSpaces(s) == " "
  {
    assert s[..|s|] == s;
    LeadingSpacesUnique(s, |s|);
  }

  /** A whitespace run never reaches across a non-space character, so the
      text on either side of one is collapsed on its own. With the empty text
      and `CollapseOfSpaceRun` this determines `CollapseSpaces` completely. */
  lemma {:induction false} CollapseAtWord(x: string, c: char, y: string)
    requires !IsSpace(c)
    ensures CollapseSpaces(x + [c] + y) == CollapseSpaces(x) + [c] + CollapseSpaces(y)
    decreases |x|
  {
    var s := x + [c] + y;
    if x == [] {
      assert s[0] == c && s[1..] == y;
    } else if !IsSpace(x[0]) {
      assert s[0] == x[0] && s[1..] == x[1..] + [c] + y;
      CollapseAtWord(x[1..], c, y);
    } else {
      var k := LeadingSpaces(x);
      assert s[..k] == x[..k];
      if k < |x| {
        assert s[k] == x[k];
      } else {
        assert s[k] == c;
      }
      LeadingSpacesUnique(s, k);
      assert s[k..] == x[k..] + [c] + y;
      CollapseAtWord(x[k..], c, y);
    }
  }

  /** The non-whitespace characters of `s`, in order. */
  function StripSpaces(s: string): (r: string)
    ensures NoSpace(r)
  {
    if s == [] then []
    else (if IsSpace(s[0]) then [] else [s[0]]) + StripSpaces(s[1..])
  }

  lemma {:induction false} StripSpacesConcat(x: string, y: string)
    ensures StripSpaces(x + y) == StripSpaces(x) + StripSpaces(y)
  {
    if x == [] {
      assert x + y == y;
    } else {
      assert (x + y)[0] == x[0] && (x + y)[1..] == x[1..] + y;
      StripSpacesConcat(x[1..], y);
    }
  }

  lemma {:induction false} StripSpacesOfSpaces(s: string)
    requires AllSpace(s)
    ensures StripSpaces(s) == []
  {
    if s != [] {
      StripSpacesOfSpaces(s[1..]);
    }
  }

  /** Collapsing whitespace keeps every other character, in order. */
  lemma {:induction false} CollapseKeepsWords(s: string)
    ensures StripSpaces(CollapseSpaces(s)) == StripSpaces(s)
    decreases |s|
  {
    if s != [] {
      if IsSpace(s[0]) {
        var k := LeadingSpaces(s);
        CollapseKeepsWords(s[k..]);
        assert s == s[..k] + s[k..];
        StripSpacesConcat(s[..k], s[k..]);
        StripSpacesOfSpaces(s[..k]);
        StripSpacesConcat([' '], CollapseSpaces(s[k..]));
      } else {
        CollapseKeepsWords(s[1..]);
        StripSpacesConcat([s[0]], CollapseSpaces(s[1..]));
      }
    }
  }

  /** The only whitespace in `s` is the plain space, never two in a row. */
  predicate Collapsed(s: string) {
    && (forall i :: 0 <= i < |s| && IsSpace(s[i]) ==> s[i] == ' ')
    && (forall i :: 0 <= i < |s| - 1 ==> !IsSpace(s[i]) || !IsSpace(s[i + 1]))
  }

  lemma CollapsedSlice(s: string, i: nat, j: nat)
    requires i <= j <= |s|
    requires Collapsed(s)
    ensures Collapsed(s[i..j])
  {
    assert forall k :: 0 <= k < j - i ==> s[i..j][k] == s[i + k];
  }

  /** The shape of a normalised text: the only whitespace is a single space
      between two non-space characters. */
  predicate NormalForm(s: string) {
    Collapsed(s) && (s == [] || (!IsSpace(s[0]) && !IsSpace(s[|s| - 1])))
  }

  /** `toLowerCase().replace(/\s+/g, ' ').trim()`. */
  function Normalize(s: string): (r: string)
    ensures NormalForm(r)
    ensures |r| <= |s|
  {
    var c := CollapseSpaces(Lower(s));
    TrimCollapsed(c);
    Trim(c)
  }

  /** Trimming a collapsed text leaves it collapsed. */
  lemma TrimCollapsed(c: string)
    requires Collapsed(c)
    ensures NormalForm(Trim(c)) && |Trim(c)| <= |c|
  {
    var a := LeadingSpaces(c);
    var b := TrailingStart(c[a..]);
    assert Trim(c) == c[a..a + b];
    CollapsedSlice(c, a, a + b);
  }

  /** `s` is the trimmed text with whitespace on either side. */
  lemma TrimParts(s: string) returns (head: string, middle: string, tail: string)
    ensures s == head + (middle + tail) && Trim(s) == middle
    ensures AllSpace(head) && AllSpace(tail)
  {
    var a := LeadingSpaces(s);
    var t := s[a..];
    var b := TrailingStart(t);
    head, middle, tail := s[..a], t[..b], t[b..];
  }

  /** Trimming removes whitespace only. */
  lemma TrimKeepsWords(s: string)
    ensures StripSpaces(Trim(s)) == StripSpaces(s)
  {
    var head, middle, tail := TrimParts(s);
    StripSpacesOfSpaces(head);
    StripSpacesOfSpaces(tail);
    StripSpacesConcat(middle, tail);
    assert StripSpaces(middle + tail) == StripSpaces(middle);
    StripSpacesConcat(head, middle + tail);
  }

  /** Normalising keeps every non-whitespace character of the lower-cased
      text, in order; only whitespace changes. */
  lemma NormalizeKeepsWords(s: string)
    ensures StripSpaces(Normalize(s)) == StripSpaces(Lower(s))
  {
    CollapseKeepsWords(Lower(s));
    TrimKeepsWords(CollapseSpaces(Lower(s)));
  }

  /** `split(/\s+/)`: the pieces between maximal whitespace runs, with an
      empty first (last) piece when `s` starts (ends) with whitespace. */
  function Split(s: string): (r: seq<string>)
    ensures |r| >= 1
    ensures forall k :: 0 <= k < |r| ==> NoSpace(r[k])
    decreases |s|
  {
    if s == [] then [[]]
    else if IsSpace(s[0]) then
      [[]] + Split(s[LeadingSpaces(s)..])
    else
      var rest := Split(s[1..]);
      [[s[0]] + rest[0]] + rest[1..]
  }

  /** `pieces.join(' ')`. */
  function Join(pieces: seq<string>): string {
    if pieces == [] then []
    else if |pieces| == 1 then pieces[0]
    else pieces[0] + " " + Join(pieces[1..])
  }

  lemma JoinExtendFirst(c: char, ps: seq<string>)
    requires ps != []
    ensures Join([[c] + ps[0]] + ps[1..]) == [c] + Join(ps)
  {
    var qs := [[c] + ps[0]] + ps[1..];
    assert qs[1..] == ps[1..];
  }

  /** The pieces of `split(/\s+/)` joined by single spaces give the text with
      its whitespace collapsed. As no piece holds whitespace, the pieces are
      exactly the words between the whitespace runs. */
  lemma {:induction false} SplitJoinsToCollapsed(s: string)
    ensures Join(Split(s)) == CollapseSpaces(s)
    decreases |s|
  {
    if s == [] {
    } else if IsSpace(s[0]) {
      var k := LeadingSpaces(s);
      SplitJoinsToCollapsed(s[k..]);
      var rest := Split(s[k..]);
      assert ([[]] + rest)[1..] == rest;
    } else {
      SplitJoinsToCollapsed(s[1..]);
      JoinExtendFirst(s[0], Split(s[1..]));
    }
  }

  /** `s.slice(0, n)`. */
  function Prefix(s: string, n: nat): (r: string)
    ensures |r| == if |s| <= n then |s| else n
    ensures r <= s
  {
    if |s| <= n then s else s[..n]
  }

  predicate OccursAt(p: string, s: string, i: int) {
    0 <= i && i + |p| <= |s| && s[i..i + |p|] == p
  }

  /** Substring search, scanning start positions from the left. */
  function Occurs(p: string, s: string): (r: bool)
    ensures r <==> exists i :: OccursAt(p, s, i)
    decreases |s|
  {
    if |s| < |p| then false
    else if s[..|p|] == p then
      assert OccursAt(p, s, 0);
      true
    else
      var r := Occurs(p, s[1..]);
      if r then
        var i :| OccursAt(p, s[1..], i);
        assert OccursAt(p, s, i + 1) by { assert s[1..][i..i + |p|] == s[i + 1..i + 1 + |p|]; }
        true
      else
        forall i | 0 <= i ensures !OccursAt(p, s, i) {
          if 0 < i && i + |p| <= |s| {
            assert s[1..][i - 1..i - 1 + |p|] == s[i..i + |p|];
            assert !OccursAt(p, s[1..], i - 1);
          }
        }
        false
  }
}
