/** The message formatter `_format` of src/nls.build.ts: left-to-right,
    non-overlapping replacement of `{digits}` placeholders, then an optional
    pseudo-localisation pass. The pseudo flag, a process-wide setting in the
    plugin, is an explicit parameter here. */
module Formatter {
  import opened Wrappers
  import opened Decimal

  // ---------------------------------------------------------------------
  // Recognising a placeholder: the regular expression /\{(\d+)\}/
  // ---------------------------------------------------------------------

  /** `t` is exactly one placeholder: a brace, one or more ASCII digits, a brace. */
  predicate IsPlaceholder(t: string) {
    && |t| >= 3
    && t[0] == '{'
    && t[|t| - 1] == '}'
    && DigitsBetween(t, 1, |t| - 1)
  }

  /** `a` has no opening brace, so no placeholder can start inside it. */
  predicate BraceFree(a: string) {
    forall i :: 0 <= i < |a| ==> a[i] != '{'
  }

  /** Number of digits at the front of `s`. */
  function LeadingDigits(s: string): (k: nat)
    ensures k <= |s|
    ensures k == |s| || !IsDigit(s[k])
  {
    if |s| > 0 && IsDigit(s[0]) then 1 + LeadingDigits(s[1..]) else 0
  }

  /** Every character `LeadingDigits` counts is a digit. */
  lemma {:induction false} LeadingDigitsAreDigits(s: string, i: nat)
    requires i < LeadingDigits(s)
    ensures IsDigit(s[i])
    decreases |s|
  {
    if i > 0 {
      LeadingDigitsAreDigits(s[1..], i - 1);
    }
  }

  /** `LeadingDigits` counts at least every digit run at the front of `s`. */
  lemma {:induction false} LeadingDigitsCover(s: string, k: nat)
    requires k <= |s| && DigitsBetween(s, 0, k)
    ensures LeadingDigits(s) >= k
    decreases |s|
  {
    if k > 0 {
      assert IsDigit(s[0]);
      LeadingDigitsCover(s[1..], k - 1);
    }
  }

  /** Length of the placeholder `s` starts with, if it starts with one. */
  function PlaceholderLength(s: string): (r: Option<nat>)
    ensures r.Some? ==> 3 <= r.value <= |s|
  {
    if |s| >= 3 && s[0] == '{' then
      var k := LeadingDigits(s[1..]);
      if 1 <= k && k + 1 < |s| && s[k + 1] == '}' then Some(k + 2) else None
    else
      None
  }

  /** What `PlaceholderLength` finds is a placeholder. */
  lemma PlaceholderLengthSound(s: string)
    ensures PlaceholderLength(s).Some? ==> IsPlaceholder(s[..PlaceholderLength(s).value])
  {
    if PlaceholderLength(s).Some? {
      var p := s[..PlaceholderLength(s).value];
      forall i | 1 <= i < |p| - 1 ensures IsDigit(p[i]) {
        LeadingDigitsAreDigits(s[1..], i - 1);
        assert s[1..][i - 1] == p[i];
      }
    }
  }

  /** A placeholder cannot be a proper prefix of another, so whatever
      placeholder `s` starts with is the match the regular expression makes
      at the front of `s`, and `PlaceholderLength` finds it. */
  lemma PlaceholderLengthUnique(s: string, n: nat)
    requires n <= |s| && IsPlaceholder(s[..n])
    ensures PlaceholderLength(s) == Some(n)
  {
    var p := s[..n];
    var t := s[1..];
    assert DigitsBetween(t, 0, n - 2) by {
      forall i | 0 <= i < n - 2 ensures IsDigit(t[i]) {
        assert t[i] == p[i + 1];
      }
    }
    LeadingDigitsCover(t, n - 2);
    assert t[n - 2] == p[n - 1];
    var k := LeadingDigits(t);
    if k > n - 2 {
      LeadingDigitsAreDigits(t, n - 2);
    }
    assert s[k + 1] == p[n - 1];
  }

  // ---------------------------------------------------------------------
  // Substitution
  // ---------------------------------------------------------------------

  /** The argument index a placeholder selects: only its FIRST digit, because
      the source indexes `args` with `rest[0]`, the first character of the
      captured digits. So `{12}` selects argument 1. */
  function PlaceholderIndex(p: string): (i: nat)
    requires IsPlaceholder(p)
    ensures i < 10
  {
    DigitValue(p[1])
  }

  /** The placeholder written for argument `n` selects argument `n` exactly
      when `n` is a single digit; from `{10}` on it selects the argument
      named by the leading digit instead. */
  lemma PlaceholderIndexOfNumber(n: nat)
    ensures IsPlaceholder("{" + NatToString(n) + "}")
    ensures PlaceholderIndex("{" + NatToString(n) + "}") == LeadingDigit(n)
    ensures PlaceholderIndex("{" + NatToString(n) + "}") == n <==> n < 10
  {
    var digits := NatToString(n);
    var p := "{" + digits + "}";
    forall i | 1 <= i < |p| - 1 ensures IsDigit(p[i]) {
      assert p[i] == digits[i - 1];
    }
    assert p[1] == digits[0];
    NatToStringFirst(n);
  }

  /** What one placeholder is replaced with: the selected argument when it
      exists, otherwise the placeholder text itself. */
  function Replacement(p: string, args: seq<string>): (r: string)
    requires IsPlaceholder(p)
    ensures PlaceholderIndex(p) < |args| ==> r == args[PlaceholderIndex(p)]
    ensures PlaceholderIndex(p) >= |args| ==> r == p
  {
    var i := PlaceholderIndex(p);
    if i < |args| then args[i] else p
  }

  /** `message.replace(/\{(\d+)\}/g, ...)`: scan from the left; at a
      placeholder, emit its replacement and resume after it; otherwise copy
      one character. Replacement text is never rescanned. With no arguments
      no index is in range and every placeholder stays, so the source's early
      return for an empty argument list changes nothing. */
  function Substitute(s: string, args: seq<string>): (r: string)
    ensures |args| == 0 ==> r == s
    decreases |s|
  {
    if |s| == 0 then []
    else match PlaceholderLength(s)
      case Some(n) =>
        PlaceholderLengthSound(s);
        assert |args| == 0 ==> s == s[..n] + s[n..];
        Replacement(s[..n], args) + Substitute(s[n..], args)
      case None =>
        assert s == [s[0]] + s[1..];
        [s[0]] + Substitute(s[1..], args)
  }

  /** `s` contains no placeholder at any position. */
  predicate NoPlaceholder(s: string) {
    forall i :: 0 <= i < |s| ==> PlaceholderLength(s[i..]).None?
  }

  // ---------------------------------------------------------------------
  // Segmentation: the same scan seen as parsing into pieces
  // ---------------------------------------------------------------------

  /** One piece of a message: a single literal character, or one placeholder
      matched by the scan. */
  datatype Piece = Literal(c: char) | Hole(text: string)

  /** Splits a message the way the substitution scan walks it. */
  function Segment(s: string): (ps: seq<Piece>)
    ensures forall j :: 0 <= j < |ps| && ps[j].Hole? ==> IsPlaceholder(ps[j].text)
    decreases |s|
  {
    if |s| == 0 then []
    else match PlaceholderLength(s)
      case Some(n) =>
        PlaceholderLengthSound(s);
        [Hole(s[..n])] + Segment(s[n..])
      case None => [Literal(s[0])] + Segment(s[1..])
  }

  /** The text a sequence of pieces spells. */
  function Text(ps: seq<Piece>): string {
    if |ps| == 0 then []
    else (match ps[0] case Literal(c) => [c] case Hole(t) => t) + Text(ps[1..])
  }

  /** Each piece with its placeholders filled from `args`. */
  function Fill(ps: seq<Piece>, args: seq<string>): string
    requires forall j :: 0 <= j < |ps| && ps[j].Hole? ==> IsPlaceholder(ps[j].text)
  {
    if |ps| == 0 then []
    else
      (match ps[0] case Literal(c) => [c] case Hole(t) => Replacement(t, args))
      + Fill(ps[1..], args)
  }

  /** Segmentation loses nothing: the pieces spell the message again. */
  lemma {:induction false} SegmentText(s: string)
    ensures Text(Segment(s)) == s
    decreases |s|
  {
    if |s| > 0 {
      match PlaceholderLength(s)
      case Some(n) =>
        var ps := Segment(s);
        assert ps[0] == Hole(s[..n]) && ps[1..] == Segment(s[n..]);
        SegmentText(s[n..]);
        assert Text(ps) == s[..n] + s[n..];
        assert s == s[..n] + s[n..];
      case None =>
        var ps := Segment(s);
        assert ps[0] == Literal(s[0]) && ps[1..] == Segment(s[1..]);
        SegmentText(s[1..]);
        assert Text(ps) == [s[0]] + s[1..];
        assert s == [s[0]] + s[1..];
    }
  }

  /** Substitution is segmentation followed by filling each hole: every
      placeholder the scan finds is replaced independently, every other
      character is copied. */
  lemma {:induction false} SubstituteIsFill(s: string, args: seq<string>)
    ensures Substitute(s, args) == Fill(Segment(s), args)
    decreases |s|
  {
    if |s| > 0 {
      match PlaceholderLength(s)
      case Some(n) =>
        SubstituteIsFill(s[n..], args);
        assert Segment(s)[1..] == Segment(s[n..]);
      case None =>
        SubstituteIsFill(s[1..], args);
        assert Segment(s)[1..] == Segment(s[1..]);
    }
  }

  /** A placeholder followed by anything is replaced as a unit and the rest
      is substituted on its own: matches do not overlap. */
  lemma SubstitutePlaceholderFirst(p: string, t: string, args: seq<string>)
    requires IsPlaceholder(p)
    ensures Substitute(p + t, args) == Replacement(p, args) + Substitute(t, args)
  {
    var s := p + t;
    assert s[..|p|] == p;
    assert s[|p|..] == t;
    PlaceholderLengthUnique(s, |p|);
  }

  /** Text without an opening brace cannot start a placeholder, so it is
      copied and the scan goes on with whatever follows it. */
  lemma {:induction false} SubstituteBraceFree(a: string, t: string, args: seq<string>)
    requires BraceFree(a)
    ensures Substitute(a + t, args) == a + Substitute(t, args)
    decreases |a|
  {
    if |a| > 0 {
      var s := a + t;
      assert s[0] == a[0];
      assert s[1..] == a[1..] + t;
      assert PlaceholderLength(s).None?;
      assert Substitute(s, args) == [s[0]] + Substitute(s[1..], args);
      SubstituteBraceFree(a[1..], t, args);
      assert a == [a[0]] + a[1..];
      assert [s[0]] + (a[1..] + Substitute(t, args)) == a + Substitute(t, args);
    } else {
      assert a + t == t;
    }
  }

  /** A message with no placeholder is copied unchanged by substitution. */
  lemma {:induction false} SubstituteNoPlaceholder(s: string, args: seq<string>)
    requires NoPlaceholder(s)
    ensures Substitute(s, args) == s
    decreases |s|
  {
    if |s| > 0 {
      assert PlaceholderLength(s[0..]).None?;
      assert s[0..] == s;
      assert NoPlaceholder(s[1..]) by {
        forall i | 0 <= i < |s[1..]| ensures PlaceholderLength(s[1..][i..]).None? {
          assert s[1..][i..] == s[i + 1..];
        }
      }
      SubstituteNoPlaceholder(s[1..], args);
      assert s == [s[0]] + s[1..];
    }
  }

  /** One step of the scan at the front of `rest`: the characters consumed
      (one placeholder, or one copied character) and the text emitted for
      them, after which the substitution of the remainder follows. */
  method ScanPiece(rest: string, args: seq<string>) returns (n: nat, piece: string)
    requires |rest| > 0
    ensures 1 <= n <= |rest|
    ensures piece + Substitute(rest[n..], args) == Substitute(rest, args)
  {
    match PlaceholderLength(rest)
    case Some(k) =>
      PlaceholderLengthSound(rest);
      n, piece := k, Replacement(rest[..k], args);
    case None =>
      n, piece := 1, [rest[0]];
  }

  /** The scan as the source's `String.prototype.replace` runs it: a loop over
      the message, appending replacements and copied characters. */
  method SubstituteScan(s: string, args: seq<string>) returns (out: string)
    ensures out == Fill(Segment(s), args)
    ensures NoPlaceholder(s) ==> out == s
  {
    out := [];
    var rest := s;
    while |rest| > 0
      invariant out + Substitute(rest, args) == Substitute(s, args)
      decreases |rest|
    {
      var n, piece := ScanPiece(rest, args);
      assert (out + piece) + Substitute(rest[n..], args) == out + (piece + Substitute(rest[n..], args));
      out := out + piece;
      rest := rest[n..];
    }
    ScanDone(s, out, args);
  }

  /** When the whole message is scanned, the output is the substitution,
      which means what the scan reports. */
  lemma ScanDone(s: string, out: string, args: seq<string>)
    requires out + Substitute([], args) == Substitute(s, args)
    ensures out == Fill(Segment(s), args)
    ensures NoPlaceholder(s) ==> out == s
  {
    assert out + [] == out;
    SubstituteIsFill(s, args);
    if NoPlaceholder(s) {
      SubstituteNoPlaceholder(s, args);
    }
  }

  // ---------------------------------------------------------------------
  // Pseudo-localisation
  // ---------------------------------------------------------------------

  /** U+FF3B and U+FF3D, the full-width square brackets. */
  const PseudoOpen: char := '［'
  const PseudoClose: char := '］'

  /** The vowels the pseudo pass doubles: /[aouei]/, lower case only. */
  predicate IsVowel(c: char) {
    c == 'a' || c == 'o' || c == 'u' || c == 'e' || c == 'i'
  }

  function CountVowels(s: string): nat {
    if |s| == 0 then 0 else (if IsVowel(s[0]) then 1 else 0) + CountVowels(s[1..])
  }

  /** `s.replace(/[aouei]/g, '$&$&')`. */
  function DoubleVowels(s: string): (r: string)
    ensures |r| == |s| + CountVowels(s)
  {
    if |s| == 0 then []
    else (if IsVowel(s[0]) then [s[0], s[0]] else [s[0]]) + DoubleVowels(s[1..])
  }

  /** Undoes `DoubleVowels`; `None` when some vowel is not doubled. */
  function UndoubleVowels(t: string): Option<string>
    decreases |t|
  {
    if |t| == 0 then Some([])
    else if !IsVowel(t[0]) then
      match UndoubleVowels(t[1..])
      case Some(r) => Some([t[0]] + r)
      case None => None
    else if |t| >= 2 && t[1] == t[0] then
      match UndoubleVowels(t[2..])
      case Some(r) => Some([t[0]] + r)
      case None => None
    else None
  }

  /** The pseudo-localised form of an already substituted message. */
  function Pseudo(s: string): (r: string)
    ensures |r| == 2 + |s| + CountVowels(s)
    ensures r[0] == PseudoOpen && r[|r| - 1] == PseudoClose
  {
    [PseudoOpen] + DoubleVowels(s) + [PseudoClose]
  }

  /** Removes the brackets and the doubled vowels; `None` when `t` is not of
      that shape. */
  function StripPseudo(t: string): Option<string> {
    if |t| >= 2 && t[0] == PseudoOpen && t[|t| - 1] == PseudoClose
    then UndoubleVowels(t[1..|t| - 1])
    else None
  }

  lemma {:induction false} UndoubleDouble(s: string)
    ensures UndoubleVowels(DoubleVowels(s)) == Some(s)
    decreases |s|
  {
    if |s| > 0 {
      UndoubleDouble(s[1..]);
      var t := DoubleVowels(s);
      if IsVowel(s[0]) {
        assert t[2..] == DoubleVowels(s[1..]);
      } else {
        assert t[1..] == DoubleVowels(s[1..]);
      }
      assert s == [s[0]] + s[1..];
    }
  }

  lemma {:induction false} DoubleUndouble(t: string, s: string)
    requires UndoubleVowels(t) == Some(s)
    ensures DoubleVowels(s) == t
    decreases |t|
  {
    if |t| > 0 {
      if !IsVowel(t[0]) {
        var r := UndoubleVowels(t[1..]).value;
        DoubleUndouble(t[1..], r);
        assert s[1..] == r;
        assert t == [t[0]] + t[1..];
      } else {
        var r := UndoubleVowels(t[2..]).value;
        DoubleUndouble(t[2..], r);
        assert s[1..] == r;
        assert t == [t[0], t[0]] + t[2..];
      }
    }
  }

  /** The pseudo pass is reversible, and a string is a pseudo form exactly
      when it strips: both directions of the round trip. */
  lemma PseudoRoundTrip(s: string, t: string)
    ensures StripPseudo(Pseudo(s)) == Some(s)
    ensures StripPseudo(t) == Some(s) <==> t == Pseudo(s)
  {
    var p := Pseudo(s);
    assert p[1..|p| - 1] == DoubleVowels(s);
    UndoubleDouble(s);
    if StripPseudo(t) == Some(s) {
      DoubleUndouble(t[1..|t| - 1], s);
      assert t == [t[0]] + t[1..|t| - 1] + [t[|t| - 1]];
    }
  }

  // ---------------------------------------------------------------------
  // _format
  // ---------------------------------------------------------------------

  /** `_format(message, args)` with the pseudo flag given explicitly. */
  function Format(message: string, args: seq<string>, pseudo: bool): (r: string)
    ensures !pseudo && |args| == 0 ==> r == message
    ensures !pseudo && NoPlaceholder(message) ==> r == message
    ensures !pseudo ==> r == Fill(Segment(message), args)
    ensures pseudo ==> StripPseudo(r) == Some(Fill(Segment(message), args))
    ensures pseudo ==> |r| >= 2 && r[0] == PseudoOpen && r[|r| - 1] == PseudoClose
    ensures pseudo && |args| == 0 ==>
      StripPseudo(r) == Some(message) && |r| == 2 + |message| + CountVowels(message)
  {
    var substituted := if |args| == 0 then message else Substitute(message, args);
    SubstituteIsFill(message, args);
    assert NoPlaceholder(message) ==> Substitute(message, args) == message by {
      if NoPlaceholder(message) { SubstituteNoPlaceholder(message, args); }
    }
    PseudoRoundTrip(substituted, substituted);
    if pseudo then Pseudo(substituted) else substituted
  }

  /** The unscoped `localize(data, message, ...args)` handed out for the root
      request: it ignores `data` and formats `message` with the rest. */
  function RootLocalize<D>(data: D, message: string, args: seq<string>, pseudo: bool): (r: string)
    ensures r == Format(message, args, pseudo)
    ensures !pseudo && NoPlaceholder(message) ==> r == message
  {
    Format(message, args, pseudo)
  }
}

/** Worked examples of `_format`. */
module FormatExamples {
  import opened Formatter

  /** Only the first digit selects the argument, but the whole placeholder is
      replaced; an index past the arguments leaves the placeholder. */
  lemma FirstDigitSelects()
    ensures Format("{12}", ["x", "y"], false) == "y"
    ensures Format("{7}!", ["x"], false) == "{7}!"
  {
    var p := "{12}";
    SubstitutePlaceholderFirst(p, "", ["x", "y"]);
    assert p + "" == p;
    var q := "{7}";
    assert IsPlaceholder(q);
    SubstitutePlaceholderFirst(q, "!", ["x"]);
    assert Substitute("!", ["x"]) == "!";
    assert q + "!" == "{7}!";
  }

  /** A message with two placeholders and two arguments. */
  lemma HelloExample()
    ensures Format("Hello {0}, you have {1} items", ["Ana", "3"], false) == "Hello Ana, you have 3 items"
  {
    HelloSubstitute();
  }

  lemma HelloSubstitute()
    ensures Substitute("Hello {0}, you have {1} items", ["Ana", "3"]) == "Hello Ana, you have 3 items"
  {
    var a, p0, b, p1, c := "Hello ", "{0}", ", you have ", "{1}", " items";
    var args := ["Ana", "3"];
    HelloPieces();
    TwoPlaceholders(a, p0, b, p1, c, args);
  }

  /** The facts about the pieces of the example message. */
  lemma HelloPieces()
    ensures IsPlaceholder("{0}") && IsPlaceholder("{1}")
    ensures Replacement("{0}", ["Ana", "3"]) == "Ana" && Replacement("{1}", ["Ana", "3"]) == "3"
    ensures BraceFree("Hello ") && BraceFree(", you have ") && BraceFree(" items")
    ensures "Hello " + "{0}" + ", you have " + "{1}" + " items" == "Hello {0}, you have {1} items"
    ensures "Hello " + "Ana" + ", you have " + "3" + " items" == "Hello Ana, you have 3 items"
  {
  }

  /** Brace-free text followed by a placeholder: the text is copied, the
      placeholder replaced, and the scan goes on after it. */
  lemma OnePlaceholder(a: string, p: string, t: string, args: seq<string>)
    requires IsPlaceholder(p) && BraceFree(a)
    ensures Substitute(a + p + t, args) == a + Replacement(p, args) + Substitute(t, args)
  {
    var r, rest := Replacement(p, args), Substitute(t, args);
    SubstitutePlaceholderFirst(p, t, args);
    SubstituteBraceFree(a, p + t, args);
    assert a + p + t == a + (p + t);
    assert a + (r + rest) == a + r + rest;
  }

  /** Brace-free text around two placeholders: the text is copied, each
      placeholder replaced. */
  lemma TwoPlaceholders(a: string, p0: string, b: string, p1: string, c: string, args: seq<string>)
    requires IsPlaceholder(p0) && IsPlaceholder(p1)
    requires BraceFree(a) && BraceFree(b) && BraceFree(c)
    ensures Substitute(a + p0 + b + p1 + c, args)
         == a + Replacement(p0, args) + b + Replacement(p1, args) + c
  {
    var r0, r1 := Replacement(p0, args), Replacement(p1, args);
    var rest := b + p1 + c;
    SubstituteBraceFree(c, "", args);
    assert c + "" == c;
    OnePlaceholder(b, p1, c, args);
    OnePlaceholder(a, p0, rest, args);
    Reassociate(a, p0, b, p1, c);
    Reassociate(a, r0, b, r1, c);
  }

  /** Regrouping the five parts of the example message. */
  lemma Reassociate(a: string, x: string, b: string, y: string, c: string)
    ensures a + x + (b + y + c) == a + x + b + y + c
  {
  }

  /** Replacement text is not scanned again. */
  lemma NoRescan()
    ensures Format("{0}", ["{1}", "z"], false) == "{1}"
  {
  }

  /** The pseudo form of a short message. */
  lemma PseudoExample()
    ensures Format("Open", [], true) == "［Opeen］"
  {
    assert DoubleVowels("Open") == "Opeen" by {
      assert "Open"[1..] == "pen";
      assert "pen"[1..] == "en";
      assert "en"[1..] == "n";
      assert "n"[1..] == "";
    }
    assert Pseudo("Open") == "［Opeen］";
  }
}
