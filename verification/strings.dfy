/**
 * String helpers with JavaScript semantics: `String.prototype.trim`, and
 * global literal replacement (`s.replace(/lit/g, r)`, which is the same as
 * `s.split(lit).join(r)`).
 */
module Strings {

  /** The characters `trim` removes: ECMAScript WhiteSpace and LineTerminator. */
  predicate IsWhitespace(c: char) {
    || c == '\t' || c == '\n' || c == '\U{000B}' || c == '\U{000C}' || c == '\r'
    || c == ' ' || c == '\U{00A0}' || c == '\U{1680}'
    || ('\U{2000}' <= c <= '\U{200A}')
    || c == '\U{2028}' || c == '\U{2029}' || c == '\U{202F}' || c == '\U{205F}'
    || c == '\U{3000}' || c == '\U{FEFF}'
  }

  predicate AllWhitespace(s: string) {
    forall i :: 0 <= i < |s| ==> IsWhitespace(s[i])
  }

  /** Drops leading whitespace: the result is the suffix after the longest all-whitespace prefix. */
  function TrimStart(s: string): (r: string)
    ensures |r| <= |s| && r == s[|s| - |r|..]
    ensures AllWhitespace(s[..|s| - |r|])
    ensures r == [] || !IsWhitespace(r[0])
    decreases |s|
  {
    if s != [] && IsWhitespace(s[0]) then
      var r := TrimStart(s[1..]);
      LeadingStep(s, r);
      r
    else s
  }

  /** Drops trailing whitespace: the result is the prefix before the longest all-whitespace suffix. */
  function TrimEnd(s: string): (r: string)
    ensures |r| <= |s| && r == s[..|r|]
    ensures AllWhitespace(s[|r|..])
    ensures r == [] || !IsWhitespace(r[|r| - 1])
    decreases |s|
  {
    if s != [] && IsWhitespace(s[|s| - 1]) then
      var r := TrimEnd(s[..|s| - 1]);
      TrailingStep(s, r);
      r
    else s
  }

  /** One more whitespace character in front keeps the removed prefix all whitespace. */
  lemma LeadingStep(s: string, r: string)
    requires s != [] && IsWhitespace(s[0])
    requires |r| <= |s| - 1 && r == s[1..][|s| - 1 - |r|..] && AllWhitespace(s[1..][..|s| - 1 - |r|])
    ensures r == s[|s| - |r|..] && AllWhitespace(s[..|s| - |r|])
  {
    assert s[..|s| - |r|] == [s[0]] + s[1..][..|s| - 1 - |r|];
  }

  /** One more whitespace character at the end keeps the removed suffix all whitespace. */
  lemma TrailingStep(s: string, r: string)
    requires s != [] && IsWhitespace(s[|s| - 1])
    requires |r| <= |s| - 1 && r == s[..|s| - 1][..|r|] && AllWhitespace(s[..|s| - 1][|r|..])
    ensures r == s[..|r|] && AllWhitespace(s[|r|..])
  {
    assert s[|r|..] == s[..|s| - 1][|r|..] + [s[|s| - 1]];
  }

  /** `s` is `lead + r + trail` with both `lead` and `trail` all whitespace. */
  ghost predicate TrimmedFrom(s: string, r: string) {
    exists k :: 0 <= k <= |s| - |r| && IsInfixAt(r, s, k)
      && AllWhitespace(s[..k]) && AllWhitespace(s[k + |r|..])
  }

  predicate IsInfixAt(r: string, s: string, k: int) {
    0 <= k <= |s| - |r| && s[k..k + |r|] == r
  }

  /** JavaScript's `trim`. */
  function Trim(s: string): (r: string)
    ensures TrimmedFrom(s, r)
    ensures r == [] || (!IsWhitespace(r[0]) && !IsWhitespace(r[|r| - 1]))
    ensures r == [] <==> AllWhitespace(s)
  {
    var t := TrimStart(s);
    var r := TrimEnd(t);
    TrimParts(s, t, r);
    r
  }

  lemma TrimParts(s: string, t: string, r: string)
    requires |t| <= |s| && t == s[|s| - |t|..] && AllWhitespace(s[..|s| - |t|])
    requires t == [] || !IsWhitespace(t[0])
    requires |r| <= |t| && r == t[..|r|] && AllWhitespace(t[|r|..])
    requires r == [] || !IsWhitespace(r[|r| - 1])
    ensures TrimmedFrom(s, r)
    ensures r == [] || (!IsWhitespace(r[0]) && !IsWhitespace(r[|r| - 1]))
    ensures r == [] <==> AllWhitespace(s)
  {
    var k := |s| - |t|;
    assert t == s[k..];
    assert r == t[..|r|];
    assert AllWhitespace(s[..k]);
    assert AllWhitespace(t[|r|..]);
    assert s[k..k + |r|] == r;
    assert s[k + |r|..] == t[|r|..];
    assert IsInfixAt(r, s, k);
    if r == [] {
      assert t[|r|..] == t;
      assert t == [];
      assert s[..k] == s;
      assert AllWhitespace(s);
    } else {
      assert r[0] == t[0];
      assert t[0] == s[k];
      assert !AllWhitespace(s) by {
        assert !IsWhitespace(s[k]);
      }
    }
  }

  /** Trimming twice is trimming once. */
  lemma TrimIdempotent(s: string)
    ensures Trim(Trim(s)) == Trim(s)
  {
  }

  // ---------------------------------------------------------------- occurrences

  predicate OccursAt(s: string, p: string, i: nat) {
    i + |p| <= |s| && s[i..i + |p|] == p
  }

  ghost predicate Occurs(s: string, p: string) {
    exists i: nat :: OccursAt(s, p, i)
  }

  /** An occurrence in a suffix is an occurrence in the whole string. */
  lemma OccursInSuffix(s: string, p: string, k: nat, i: nat)
    requires k <= |s| && OccursAt(s[k..], p, i)
    ensures OccursAt(s, p, k + i)
  {
    assert s[k..][i..i + |p|] == s[k + i..k + i + |p|];
  }

  /**
   * Global, leftmost, non-overlapping replacement of the literal `p` by `r`,
   * scanning from the left and resuming after each replaced occurrence.
   */
  function ReplaceAll(s: string, p: string, r: string): string
    requires p != []
    decreases |s|
  {
    if |s| < |p| then s
    else if s[..|p|] == p then r + ReplaceAll(s[|p|..], p, r)
    else [s[0]] + ReplaceAll(s[1..], p, r)
  }

  /** Text in which the literal does not occur is left unchanged. */
  lemma {:induction false} ReplaceAbsent(s: string, p: string, r: string)
    requires p != [] && !Occurs(s, p)
    ensures ReplaceAll(s, p, r) == s
    decreases |s|
  {
    if |s| < |p| {
    } else {
      assert !OccursAt(s, p, 0);
      forall i: nat | OccursAt(s[1..], p, i)
        ensures false
      {
        OccursInSuffix(s, p, 1, i);
      }
      ReplaceAbsent(s[1..], p, r);
      assert s == [s[0]] + s[1..];
    }
  }

  /** `s.split(p)`: the pieces between the leftmost non-overlapping occurrences of `p`. */
  function SplitOn(s: string, p: string): (parts: seq<string>)
    requires p != []
    ensures |parts| >= 1
    ensures parts[0] <= s
    decreases |s|
  {
    if |s| < |p| then [s]
    else if s[..|p|] == p then [[]] + SplitOn(s[|p|..], p)
    else
      var rest := SplitOn(s[1..], p);
      [[s[0]] + rest[0]] + rest[1..]
  }

  /** `parts.join(sep)`. */
  function Join(parts: seq<string>, sep: string): string
    decreases |parts|
  {
    if |parts| == 0 then []
    else if |parts| == 1 then parts[0]
    else parts[0] + sep + Join(parts[1..], sep)
  }

  lemma JoinCons(head: string, parts: seq<string>, sep: string)
    requires |parts| >= 1
    ensures Join([head] + parts, sep) == head + sep + Join(parts, sep)
  {
    assert ([head] + parts)[1..] == parts;
  }

  lemma JoinPrependToFirst(c: string, parts: seq<string>, sep: string)
    requires |parts| >= 1
    ensures Join([c + parts[0]] + parts[1..], sep) == c + Join(parts, sep)
  {
    if |parts| > 1 {
      JoinCons(c + parts[0], parts[1..], sep);
      JoinCons(parts[0], parts[1..], sep);
      assert [parts[0]] + parts[1..] == parts;
    } else {
      assert [c + parts[0]] + parts[1..] == [c + parts[0]];
    }
  }

  /** Splitting on `p` and joining back with `p` restores the string. */
  lemma {:induction false} SplitJoinRoundTrip(s: string, p: string)
    requires p != []
    ensures Join(SplitOn(s, p), p) == s
    decreases |s|
  {
    if |s| < |p| {
    } else if s[..|p|] == p {
      assert SplitOn(s, p) == [[]] + SplitOn(s[|p|..], p);
      SplitJoinRoundTrip(s[|p|..], p);
      JoinCons([], SplitOn(s[|p|..], p), p);
      assert s == s[..|p|] + s[|p|..];
    } else {
      var rest := SplitOn(s[1..], p);
      assert SplitOn(s, p) == [[s[0]] + rest[0]] + rest[1..];
      SplitJoinRoundTrip(s[1..], p);
      JoinPrependToFirst([s[0]], rest, p);
      assert s == [s[0]] + s[1..];
    }
  }

  /**
   * Replacing every occurrence is splitting at the occurrences and joining
   * with the replacement: together with `SplitJoinRoundTrip`, the text between
   * occurrences is kept verbatim and only the occurrences change.
   */
  lemma {:induction false} ReplaceIsSplitJoin(s: string, p: string, r: string)
    requires p != []
    ensures ReplaceAll(s, p, r) == Join(SplitOn(s, p), r)
    decreases |s|
  {
    if |s| < |p| {
    } else if s[..|p|] == p {
      ReplaceIsSplitJoin(s[|p|..], p, r);
      JoinCons([], SplitOn(s[|p|..], p), r);
    } else {
      ReplaceIsSplitJoin(s[1..], p, r);
      JoinPrependToFirst([s[0]], SplitOn(s[1..], p), r);
    }
  }

  /** No piece of the split contains the pattern: every occurrence was cut out. */
  lemma {:induction false} SplitPiecesFree(s: string, p: string)
    requires p != []
    ensures forall k :: 0 <= k < |SplitOn(s, p)| ==> !Occurs(SplitOn(s, p)[k], p)
    decreases |s|
  {
    var parts := SplitOn(s, p);
    if |s| < |p| {
      assert parts == [s];
    } else if s[..|p|] == p {
      SplitPiecesFree(s[|p|..], p);
      assert parts == [[]] + SplitOn(s[|p|..], p);
      forall k | 0 <= k < |parts| ensures !Occurs(parts[k], p) {
        if k > 0 {
          assert parts[k] == SplitOn(s[|p|..], p)[k - 1];
        }
      }
    } else {
      SplitPiecesFree(s[1..], p);
      var rest := SplitOn(s[1..], p);
      assert parts == [[s[0]] + rest[0]] + rest[1..];
      forall k | 0 <= k < |parts| ensures !Occurs(parts[k], p) {
        if k > 0 {
          assert parts[k] == rest[k];
        } else {
          FirstPieceFree(s, p, rest[0]);
        }
      }
    }
  }

  /** A first piece that begins `s` and extends a pattern-free piece, where `s` does not start with the pattern, is pattern-free. */
  lemma FirstPieceFree(s: string, p: string, piece: string)
    requires p != [] && |s| >= |p| && s[..|p|] != p
    requires piece <= s[1..] && !Occurs(piece, p)
    ensures !Occurs([s[0]] + piece, p)
  {
    var x := [s[0]] + piece;
    forall i: nat | OccursAt(x, p, i) ensures false {
      if i > 0 {
        ShiftOccurrence(s[0], piece, p, i);
      }
    }
  }

  /** An occurrence past the first character of `[c] + t` is an occurrence in `t`. */
  lemma ShiftOccurrence(c: char, t: string, p: string, i: nat)
    requires i > 0 && OccursAt([c] + t, p, i)
    ensures OccursAt(t, p, i - 1)
  {
    assert ([c] + t)[i..i + |p|] == t[i - 1..i - 1 + |p|];
  }

  /** When the text is cut at least once, the first piece followed by the pattern begins the text. */
  lemma {:induction false} FirstCutIsOccurrence(s: string, p: string)
    requires p != [] && |SplitOn(s, p)| >= 2
    ensures SplitOn(s, p)[0] + p <= s
    decreases |s|
  {
    if |s| < |p| {
    } else if s[..|p|] == p {
      assert SplitOn(s, p)[0] == [];
    } else {
      var rest := SplitOn(s[1..], p);
      assert SplitOn(s, p) == [[s[0]] + rest[0]] + rest[1..];
      FirstCutIsOccurrence(s[1..], p);
      assert s == [s[0]] + s[1..];
    }
  }

  /** No occurrence of `p` starts inside `piece` when `piece` is followed by `p`: the cut after it is the leftmost one. */
  predicate CutIsLeftmost(piece: string, p: string) {
    forall i :: 0 <= i < |piece| ==> !OccursAt(piece + p, p, i)
  }

  /**
   * The cuts fall at the leftmost occurrences: in a piece that a cut ends,
   * no occurrence of the pattern starts before the cut's own.
   */
  lemma {:induction false} SplitCutsLeftmost(s: string, p: string)
    requires p != []
    ensures forall k :: 0 <= k < |SplitOn(s, p)| - 1 ==> CutIsLeftmost(SplitOn(s, p)[k], p)
    decreases |s|
  {
    var parts := SplitOn(s, p);
    if |s| < |p| {
    } else if s[..|p|] == p {
      var rest := SplitOn(s[|p|..], p);
      SplitCutsLeftmost(s[|p|..], p);
      assert parts == [[]] + rest;
      forall k | 0 <= k < |parts| - 1 ensures CutIsLeftmost(parts[k], p) {
        if k > 0 {
          assert parts[k] == rest[k - 1];
        }
      }
    } else {
      var rest := SplitOn(s[1..], p);
      SplitCutsLeftmost(s[1..], p);
      assert parts == [[s[0]] + rest[0]] + rest[1..];
      forall k | 0 <= k < |parts| - 1 ensures CutIsLeftmost(parts[k], p) {
        if k > 0 {
          assert parts[k] == rest[k];
        } else {
          FirstCutIsOccurrence(s[1..], p);
          forall i | 0 <= i < |parts[0]| ensures !OccursAt(parts[0] + p, p, i) {
            if i == 0 {
              FirstPieceStartsText(s, p, rest[0]);
            } else {
              LaterStartInRest(s[0], rest[0], p, i);
            }
          }
        }
      }
    }
  }

  /** A first piece `[c] + piece` followed by `p`, where `piece + p` begins the rest of `s`, does not start with `p`. */
  lemma FirstPieceStartsText(s: string, p: string, piece: string)
    requires p != [] && |s| >= |p| && s[..|p|] != p
    requires piece + p <= s[1..]
    ensures !OccursAt([s[0]] + piece + p, p, 0)
  {
    var x := [s[0]] + piece + p;
    assert x <= s by {
      assert s == [s[0]] + s[1..];
    }
    assert x[..|p|] == s[..|p|];
  }

  /** An occurrence past the first character of `[c] + piece + p` starts inside `piece + p`. */
  lemma LaterStartInRest(c: char, piece: string, p: string, i: nat)
    requires 0 < i <= |piece| && CutIsLeftmost(piece, p)
    ensures !OccursAt([c] + piece + p, p, i)
  {
    if OccursAt([c] + piece + p, p, i) {
      assert [c] + piece + p == [c] + (piece + p);
      ShiftOccurrence(c, piece + p, p, i);
    }
  }

  /**
   * What global replacement does: the text is cut into pattern-free pieces
   * that join back to it with the pattern, each cut at the leftmost
   * occurrence after the previous one, and the result joins the same pieces
   * with the replacement. So every occurrence the left-to-right scan meets
   * is replaced and nothing else changes.
   */
  lemma ReplaceAllPieces(s: string, p: string, r: string) returns (pieces: seq<string>)
    requires p != []
    ensures |pieces| >= 1
    ensures Join(pieces, p) == s
    ensures forall k :: 0 <= k < |pieces| ==> !Occurs(pieces[k], p)
    ensures forall k, i :: 0 <= k < |pieces| - 1 && 0 <= i < |pieces[k]| ==> !OccursAt(pieces[k] + p, p, i)
    ensures ReplaceAll(s, p, r) == Join(pieces, r)
  {
    pieces := SplitOn(s, p);
    SplitJoinRoundTrip(s, p);
    SplitPiecesFree(s, p);
    SplitCutsLeftmost(s, p);
    ReplaceIsSplitJoin(s, p, r);
    forall k, i | 0 <= k < |pieces| - 1 && 0 <= i < |pieces[k]| ensures !OccursAt(pieces[k] + p, p, i) {
      assert CutIsLeftmost(pieces[k], p);
    }
  }

  /**
   * Replacement is a single pass: the replacement text together with what
   * follows can spell the pattern again, and that new occurrence stays.
   */
  lemma ReplaceCanFormNewOccurrence()
    ensures ReplaceAll("abb", "ab", "a") == "ab"
  {
    assert "abb"[..2] == "ab";
    assert "abb"[2..] == "b";
    assert ReplaceAll("b", "ab", "a") == "b";
  }

  /** Replacing a literal by itself changes nothing. */
  lemma ReplaceBySelf(s: string, p: string)
    requires p != []
    ensures ReplaceAll(s, p, p) == s
  {
    ReplaceIsSplitJoin(s, p, p);
    SplitJoinRoundTrip(s, p);
  }

  /** A character that is in `p` but not in `s` means `p` does not occur in `s`. */
  lemma AbsentCharMeansAbsent(s: string, p: string, c: char)
    requires c in p && c !in s
    ensures !Occurs(s, p)
  {
  }
}
