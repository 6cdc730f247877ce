/**
 * Kaomoji codes in chat text: the table of twenty `:code:` shortcuts and
 * their faces, the regular-expression escaping the client applies to each
 * code, and the substitution of every occurrence of every code, one code
 * after the other in table order.
 */
module Kaomoji {
  import opened Wrappers
  import opened Strings

  datatype Emoticon = Emoticon(code: string, face: string)

  /** `KAOMOJI_MAP`, in the order `for…in` visits its keys (the order they are written). */
  const Table: seq<Emoticon> := [
    Emoticon(":happy:", "(^\U{25BD}^)"),
    Emoticon(":lol:", "o(>\U{25BD}<)o"),
    Emoticon(":love:", "(\U{FF61}\U{2665}\U{203F}\U{2665}\U{FF61})"),
    Emoticon(":excited:", "(*^\U{25BD}^*)"),
    Emoticon(":proud:", "(\U{00B4}_\U{309D}`)"),
    Emoticon(":sad:", "(T_T)"),
    Emoticon(":cry:", "(\U{FF1B}\U{2032}\U{2312}`)"),
    Emoticon(":sob:", "\U{0F3C}\U{0CA2}_\U{0CA2}\U{0F3D}"),
    Emoticon(":wow:", "\U{03A3}(\U{00B0}\U{30ED}\U{00B0})"),
    Emoticon(":speechless:", "(\U{FF0D}_\U{FF0D}) zzZ"),
    Emoticon(":confused:", "(\U{00B0}_\U{00B0})?"),
    Emoticon(":wave:", "(^_^)/"),
    Emoticon(":ok:", "d(^_^o)"),
    Emoticon(":sorry:", "m(_ _)m"),
    Emoticon(":run:", "\U{03B5}=\U{03B5}=\U{250C}( >_<)\U{2518}"),
    Emoticon(":tableflip:", "(\U{256F}\U{00B0}\U{25A1}\U{00B0}\U{FF09}\U{256F}\U{FE35} \U{253B}\U{2501}\U{253B}"),
    Emoticon(":cat:", "(=^\U{30A7}^=)"),
    Emoticon(":bear:", "\U{0295} \U{2022}\U{1D25}\U{2022}\U{0294}"),
    Emoticon(":note:", "\U{30FE}( \U{00B4} A ` )\U{FF89}"),
    Emoticon(":sleepy:", "(\U{00B4}-\U{03C9}-`)")
  ]

  // ---------------------------------------------------------------- escaping

  /** The characters of the class `[-\/\\^$*+?.()|[\]{}]`. */
  predicate IsRegexSpecial(c: char) {
    c in "-/\\^$*+?.()|[]{}"
  }

  /** `code.replace(/[-\/\\^$*+?.()|[\]{}]/g, '\\$&')`: a backslash before each special character. */
  function EscapeRegex(s: string): (r: string)
    ensures |r| >= |s|
    decreases |s|
  {
    if s == [] then []
    else if IsRegexSpecial(s[0]) then ['\\', s[0]] + EscapeRegex(s[1..])
    else [s[0]] + EscapeRegex(s[1..])
  }

  /**
   * Characters that act as operators wherever they stand bare outside a
   * class: anchors, quantifiers, the wildcard, groups, alternation and the
   * class opener. A bare `-`, `/`, `]` or `}` is read as itself.
   */
  predicate IsRegexOperator(c: char) {
    c in "^$*+?.()|["
  }

  /**
   * The literal text a pattern matches, when it is made of plain characters
   * and escapes of special characters: `\c` with `c` special matches `c`,
   * and a character that is not an operator matches itself. A bare operator
   * has no literal reading (`None`); nor has a lone trailing backslash, nor
   * an escape of an ordinary character such as `\d`, which names a class.
   * A bare `{` may open a quantifier such as `{2}`, so it is given no
   * literal reading either.
   */
  function RegexLiteral(pattern: string): Option<string>
    decreases |pattern|
  {
    if pattern == [] then Some([])
    else if pattern[0] == '\\' then
      if |pattern| >= 2 && IsRegexSpecial(pattern[1]) then
        match RegexLiteral(pattern[2..])
        case Some(rest) => Some([pattern[1]] + rest)
        case None => None
      else None
    else if IsRegexOperator(pattern[0]) || pattern[0] == '{' then None
    else
      match RegexLiteral(pattern[1..])
      case Some(rest) => Some([pattern[0]] + rest)
      case None => None
  }

  /** The escaped code, read as a regular expression, is a literal that matches exactly the code itself. */
  lemma {:induction false} EscapeRoundTrip(s: string)
    ensures RegexLiteral(EscapeRegex(s)) == Some(s)
    decreases |s|
  {
    if s != [] {
      EscapeRoundTrip(s[1..]);
      var e := EscapeRegex(s);
      if IsRegexSpecial(s[0]) {
        assert e == ['\\', s[0]] + EscapeRegex(s[1..]);
        assert e[0] == '\\' && e[1] == s[0] && e[2..] == EscapeRegex(s[1..]);
      } else {
        assert s[0] != '\\';
        assert e == [s[0]] + EscapeRegex(s[1..]);
        assert e[1..] == EscapeRegex(s[1..]);
      }
      assert s == [s[0]] + s[1..];
    }
  }

  /** Every operator must be escaped: one left bare makes the pattern more than a literal. */
  lemma BareSpecialIsNotLiteral(a: string, c: char, b: string)
    requires IsRegexOperator(c)
    requires forall i :: 0 <= i < |a| ==> !IsRegexSpecial(a[i])
    ensures RegexLiteral(a + [c] + b) == None
    decreases |a|
  {
    if a == [] {
      assert (a + [c] + b)[0] == c;
    } else {
      assert (a + [c] + b)[0] == a[0];
      assert (a + [c] + b)[1..] == a[1..] + [c] + b;
      BareSpecialIsNotLiteral(a[1..], c, b);
    }
  }

  /** A pattern with no operator, no `{` and no backslash is read as itself. */
  lemma {:induction false} UnescapedPlainIsLiteral(s: string)
    requires forall i :: 0 <= i < |s| ==> !IsRegexOperator(s[i]) && s[i] != '{' && s[i] != '\\'
    ensures RegexLiteral(s) == Some(s)
    decreases |s|
  {
    if s != [] {
      UnescapedPlainIsLiteral(s[1..]);
      assert s == [s[0]] + s[1..];
    }
  }

  /**
   * Escaping `-`, `/`, `]` and `}` is harmless but not needed: bare, they
   * are read as themselves. An escaped letter is not a literal.
   */
  lemma SyntaxCharsBareAreLiteral()
    ensures RegexLiteral("a-b/c]d}") == Some("a-b/c]d}")
    ensures RegexLiteral("\\d") == None
  {
    UnescapedPlainIsLiteral("a-b/c]d}");
  }

  /** Text without special characters is its own escape. */
  lemma {:induction false} PlainTextEscapesToItself(s: string)
    requires forall i :: 0 <= i < |s| ==> !IsRegexSpecial(s[i])
    ensures EscapeRegex(s) == s
    decreases |s|
  {
    if s != [] {
      PlainTextEscapesToItself(s[1..]);
    }
  }

  // ---------------------------------------------------------------- the table's shape

  /** `:name:` with no colon inside the name. */
  predicate CodeShape(c: string) {
    |c| >= 2 && c[0] == ':' && c[|c| - 1] == ':' && ':' !in c[1..|c| - 1]
  }

  /** A code of shape `:name:` and a face without a colon. */
  predicate EntryShaped(e: Emoticon) {
    CodeShape(e.code) && ':' !in e.face
  }

  predicate Shaped(t: seq<Emoticon>) {
    forall i :: 0 <= i < |t| ==> EntryShaped(t[i])
  }

  lemma FirstQuarterShaped(i: nat)
    requires i < 5
    ensures EntryShaped(Table[i])
  {
    assert i == 0 || i == 1 || i == 2 || i == 3 || i == 4;
  }

  lemma SecondQuarterShaped(i: nat)
    requires 5 <= i < 10
    ensures EntryShaped(Table[i])
  {
    assert i == 5 || i == 6 || i == 7 || i == 8 || i == 9;
  }

  lemma ThirdQuarterShaped(i: nat)
    requires 10 <= i < 15
    ensures EntryShaped(Table[i])
  {
    assert i == 10 || i == 11 || i == 12 || i == 13 || i == 14;
  }

  lemma FourthQuarterShaped(i: nat)
    requires 15 <= i < 20
    ensures EntryShaped(Table[i])
  {
    assert i == 15 || i == 16 || i == 17 || i == 18 || i == 19;
  }

  lemma TableShaped()
    ensures Shaped(Table)
  {
    forall i | 0 <= i < |Table| ensures EntryShaped(Table[i]) {
      if i < 5 { FirstQuarterShaped(i); }
      else if i < 10 { SecondQuarterShaped(i); }
      else if i < 15 { ThirdQuarterShaped(i); }
      else { FourthQuarterShaped(i); }
    }
  }

  // ---------------------------------------------------------------- substitution

  /** One `finalMessage.replace(new RegExp(escaped, 'g'), face)` per table entry, in order. */
  function SubstituteWith(msg: string, t: seq<Emoticon>): string
    requires Shaped(t)
    decreases |t|
  {
    if t == [] then msg
    else
      EscapeRoundTrip(t[0].code);
      var pattern := RegexLiteral(EscapeRegex(t[0].code)).value;
      SubstituteWith(ReplaceAll(msg, pattern, t[0].face), t[1..])
  }

  /** The text shown for a text message whose content is `msg`. */
  function Substitute(msg: string): string {
    TableShaped();
    SubstituteWith(msg, Table)
  }

  /** The face the first entry with code `c` gives, as `KAOMOJI_MAP[c]`. */
  function Lookup(t: seq<Emoticon>, c: string): Option<string>
    decreases |t|
  {
    if t == [] then None
    else if t[0].code == c then Some(t[0].face)
    else Lookup(t[1..], c)
  }

  /** Text without a colon contains no code, so every pass leaves it unchanged. */
  lemma {:induction false} ColonFreeUnchanged(msg: string, t: seq<Emoticon>)
    requires Shaped(t) && ':' !in msg
    ensures SubstituteWith(msg, t) == msg
    decreases |t|
  {
    if t != [] {
      EscapeRoundTrip(t[0].code);
      AbsentCharMeansAbsent(msg, t[0].code, ':');
      ReplaceAbsent(msg, t[0].code, t[0].face);
      ColonFreeUnchanged(msg, t[1..]);
    }
  }

  /** A message without a colon is shown exactly as typed. */
  lemma PlainMessageUnchanged(msg: string)
    requires ':' !in msg
    ensures Substitute(msg) == msg
  {
    TableShaped();
    ColonFreeUnchanged(msg, Table);
  }

  /** One `:name:` code occurs inside another only if they are the same code. */
  lemma CodeInCode(a: string, b: string, i: nat)
    requires CodeShape(a) && CodeShape(b) && OccursAt(b, a, i)
    ensures a == b
  {
    assert b[i] == a[0];
    assert i == 0;
    assert b[|a| - 1] == a[|a| - 1];
  }

  lemma ReplaceWhole(c: string, face: string)
    requires c != []
    ensures ReplaceAll(c, c, face) == face
  {
    assert c[..|c|] == c;
    assert c[|c|..] == [];
  }

  /**
   * A message that is exactly one code is shown as that code's face (the
   * first entry for it); any other code of shape `:name:` is shown as typed.
   */
  lemma {:induction false} CodeBecomesFace(c: string, t: seq<Emoticon>)
    requires Shaped(t) && CodeShape(c)
    ensures SubstituteWith(c, t) == (match Lookup(t, c) case Some(f) => f case None => c)
    decreases |t|
  {
    if t != [] {
      EscapeRoundTrip(t[0].code);
      if t[0].code == c {
        ReplaceWhole(c, t[0].face);
        ColonFreeUnchanged(t[0].face, t[1..]);
      } else {
        forall i: nat | OccursAt(c, t[0].code, i) ensures false {
          CodeInCode(t[0].code, c, i);
        }
        ReplaceAbsent(c, t[0].code, t[0].face);
        CodeBecomesFace(c, t[1..]);
      }
    }
  }

  /** The shortcut the emoji panel inserts for the first face turns into that face. */
  lemma HappyCodeShowsFace()
    ensures Substitute(":happy:") == "(^\U{25BD}^)"
  {
    TableShaped();
    CodeBecomesFace(":happy:", Table);
  }
}
