/** The guess normaliser (`normalizeText`) and JavaScript's `String.prototype.trim`.

    A normalised key is what a catalogue name and a typed guess are compared
    by: the two gender glyphs become `f` and `m`, the text is lower-cased,
    and every character outside `[a-z0-9]` is dropped. */
module Text {

  predicate IsKeyChar(c: char) {
    'a' <= c <= 'z' || '0' <= c <= '9'
  }

  /** A string that only holds characters a normalised key may hold. */
  predicate IsKey(s: string) {
    forall i :: 0 <= i < |s| ==> IsKeyChar(s[i])
  }

  const FemaleSign: char := '\U{2640}'
  const MaleSign: char := '\U{2642}'
  const KelvinSign: char := '\U{212A}'
  const CapitalIWithDot: char := '\U{0130}'
  const CombiningDotAbove: char := '\U{0307}'

  // ---------------------------------------------------------------------
  // The three passes of normalizeText

  function SubstituteGlyph(c: char): char {
    if c == FemaleSign then 'f' else if c == MaleSign then 'm' else c
  }

  /** The two `replace` calls: every ♀ becomes `f`, every ♂ becomes `m`. */
  function SubstituteGlyphs(s: string): (r: string)
    ensures |r| == |s|
  {
    if s == [] then [] else [SubstituteGlyph(s[0])] + SubstituteGlyphs(s[1..])
  }

  /** `toLowerCase` on one character, as far as the later strip can observe
      it: ASCII capitals, and the only two non-ASCII characters whose lower
      case holds an ASCII letter (the Kelvin sign, and capital I with dot
      above, which lower-cases to `i` and a combining dot). Every other
      character is kept; its real lower case holds no ASCII letter or digit,
      so the strip removes either. */
  function LowerChar(c: char): string {
    if 'A' <= c <= 'Z' then [(c as int + 32) as char]
    else if c == KelvinSign then ['k']
    else if c == CapitalIWithDot then ['i', CombiningDotAbove]
    else [c]
  }

  function Lower(s: string): string {
    if s == [] then [] else LowerChar(s[0]) + Lower(s[1..])
  }

  /** `replace(/[^a-z0-9]/g, "")`. */
  function StripNonKey(s: string): (r: string)
    ensures IsKey(r)
    ensures |r| <= |s|
  {
    if s == [] then []
    else (if IsKeyChar(s[0]) then [s[0]] else []) + StripNonKey(s[1..])
  }

  /** `normalizeText`. The source returns "" early for an empty argument,
      which the passes below also give. */
  function Normalize(s: string): (r: string)
    ensures IsKey(r)
  {
    StripNonKey(Lower(SubstituteGlyphs(s)))
  }

  /** What one character of a guess contributes to its key. */
  function KeyOf(c: char): string {
    StripNonKey(LowerChar(SubstituteGlyph(c)))
  }

  /** Lower-casing of ASCII letters only: the case changes the key ignores. */
  function AsciiFold(c: char): char {
    if 'A' <= c <= 'Z' then (c as int + 32) as char else c
  }

  // ---------------------------------------------------------------------
  // Normalisation works character by character

  lemma {:induction false} StripAppend(a: string, b: string)
    ensures StripNonKey(a + b) == StripNonKey(a) + StripNonKey(b)
  {
    if a != [] {
      var c := a + b;
      assert c[0] == a[0] && c[1..] == a[1..] + b;
      var head := if IsKeyChar(a[0]) then [a[0]] else [];
      StripAppend(a[1..], b);
      calc {
        StripNonKey(c);
        head + StripNonKey(a[1..] + b);
        head + (StripNonKey(a[1..]) + StripNonKey(b));
        (head + StripNonKey(a[1..])) + StripNonKey(b);
      }
    } else {
      assert a + b == b;
    }
  }

  lemma {:induction false} SubstituteAppend(a: string, b: string)
    ensures SubstituteGlyphs(a + b) == SubstituteGlyphs(a) + SubstituteGlyphs(b)
  {
    if a == [] {
      assert a + b == b;
    } else {
      var c := a + b;
      assert c[0] == a[0] && c[1..] == a[1..] + b;
      SubstituteAppend(a[1..], b);
      calc {
        SubstituteGlyphs(c);
        [SubstituteGlyph(a[0])] + SubstituteGlyphs(a[1..] + b);
        [SubstituteGlyph(a[0])] + (SubstituteGlyphs(a[1..]) + SubstituteGlyphs(b));
        ([SubstituteGlyph(a[0])] + SubstituteGlyphs(a[1..])) + SubstituteGlyphs(b);
      }
    }
  }

  lemma {:induction false} LowerAppend(a: string, b: string)
    ensures Lower(a + b) == Lower(a) + Lower(b)
  {
    if a == [] {
      assert a + b == b;
    } else {
      var c := a + b;
      assert c[0] == a[0] && c[1..] == a[1..] + b;
      LowerAppend(a[1..], b);
      calc {
        Lower(c);
        LowerChar(a[0]) + Lower(a[1..] + b);
        LowerChar(a[0]) + (Lower(a[1..]) + Lower(b));
        (LowerChar(a[0]) + Lower(a[1..])) + Lower(b);
      }
    }
  }

  /** The key of a concatenation is the concatenation of the keys. */
  lemma NormalizeAppend(a: string, b: string)
    ensures Normalize(a + b) == Normalize(a) + Normalize(b)
  {
    SubstituteAppend(a, b);
    LowerAppend(SubstituteGlyphs(a), SubstituteGlyphs(b));
    StripAppend(Lower(SubstituteGlyphs(a)), Lower(SubstituteGlyphs(b)));
  }

  lemma NormalizeHead(s: string)
    requires s != []
    ensures Normalize(s) == KeyOf(s[0]) + Normalize(s[1..])
  {
    assert s == [s[0]] + s[1..];
    NormalizeAppend([s[0]], s[1..]);
    NormalizeSingle(s[0]);
  }

  lemma NormalizeSingle(c: char)
    ensures Normalize([c]) == KeyOf(c)
  {
    var g := SubstituteGlyph(c);
    assert [c][1..] == [];
    assert SubstituteGlyphs([c]) == [g];
    assert [g][1..] == [];
    assert Lower([g]) == LowerChar(g) + Lower([]);
    assert LowerChar(g) + [] == LowerChar(g);
  }

  /** Each character contributes at most one key character; which one, case by case. */
  lemma KeyOfCases(c: char)
    ensures 'A' <= c <= 'Z' ==> KeyOf(c) == [(c as int + 32) as char]
    ensures IsKeyChar(c) ==> KeyOf(c) == [c]
    ensures c == FemaleSign ==> KeyOf(c) == ['f']
    ensures c == MaleSign ==> KeyOf(c) == ['m']
    ensures c == KelvinSign ==> KeyOf(c) == ['k']
    ensures c == CapitalIWithDot ==> KeyOf(c) == ['i']
    ensures !('A' <= c <= 'Z') && !IsKeyChar(c) && c !in {FemaleSign, MaleSign, KelvinSign, CapitalIWithDot}
            ==> KeyOf(c) == []
    ensures |KeyOf(c)| <= 1
  {
    if c == CapitalIWithDot {
      assert LowerChar(c) == ['i'] + [CombiningDotAbove];
      StripAppend(['i'], [CombiningDotAbove]);
    }
  }

  /** A key is never longer than the guess it came from. */
  lemma {:induction false} NormalizeLength(s: string)
    ensures |Normalize(s)| <= |s|
  {
    if s != [] {
      NormalizeHead(s);
      KeyOfCases(s[0]);
      NormalizeLength(s[1..]);
    }
  }

  // ---------------------------------------------------------------------
  // Properties of the normaliser

  /** A string is its own key exactly when it already consists of key characters. */
  lemma {:induction false} NormalizeFixesKeys(s: string)
    ensures Normalize(s) == s <==> IsKey(s)
  {
    if s != [] {
      NormalizeHead(s);
      KeyOfCases(s[0]);
      NormalizeFixesKeys(s[1..]);
      assert IsKey(s) <==> IsKeyChar(s[0]) && IsKey(s[1..]);
    }
  }

  lemma NormalizeIdempotent(s: string)
    ensures Normalize(Normalize(s)) == Normalize(s)
  {
    NormalizeFixesKeys(Normalize(s));
  }

  lemma AsciiFoldKey(c: char)
    ensures KeyOf(AsciiFold(c)) == KeyOf(c)
  {
    KeyOfCases(c);
    KeyOfCases(AsciiFold(c));
  }

  /** Two guesses that differ only in the case of ASCII letters have the same key. */
  lemma {:induction false} NormalizeIgnoresAsciiCase(s: string, t: string)
    requires |s| == |t|
    requires forall i :: 0 <= i < |s| ==> AsciiFold(s[i]) == AsciiFold(t[i])
    ensures Normalize(s) == Normalize(t)
  {
    if s != [] {
      NormalizeHead(s);
      NormalizeHead(t);
      AsciiFoldKey(s[0]);
      AsciiFoldKey(t[0]);
      NormalizeIgnoresAsciiCase(s[1..], t[1..]);
    }
  }

  /** The two glyphs are substituted before the strip: ♀ counts as `f`, ♂ as `m`. */
  lemma GlyphsAreLetters(s: string, t: string)
    ensures Normalize(s + [FemaleSign] + t) == Normalize(s + "f" + t)
    ensures Normalize(s + [MaleSign] + t) == Normalize(s + "m" + t)
  {
    NormalizeAppend(s + [FemaleSign], t);
    NormalizeAppend(s, [FemaleSign]);
    NormalizeAppend(s + "f", t);
    NormalizeAppend(s, "f");
    NormalizeAppend(s + [MaleSign], t);
    NormalizeAppend(s, [MaleSign]);
    NormalizeAppend(s + "m", t);
    NormalizeAppend(s, "m");
    NormalizeHead([FemaleSign]);
    NormalizeHead("f");
    NormalizeHead([MaleSign]);
    NormalizeHead("m");
    KeyOfCases(FemaleSign);
    KeyOfCases('f');
    KeyOfCases(MaleSign);
    KeyOfCases('m');
  }

  // ---------------------------------------------------------------------
  // String.prototype.trim

  /** JavaScript's WhiteSpace and LineTerminator characters. */
  predicate IsJsSpace(c: char) {
    c == '\t' || c == '\n' || c == '\U{000B}' || c == '\U{000C}' || c == '\r'
    || c == ' ' || c == '\U{00A0}' || c == '\U{1680}' || ('\U{2000}' <= c <= '\U{200A}')
    || c == '\U{2028}' || c == '\U{2029}' || c == '\U{202F}' || c == '\U{205F}'
    || c == '\U{3000}' || c == '\U{FEFF}'
  }

  predicate AllSpace(s: string) {
    forall i :: 0 <= i < |s| ==> IsJsSpace(s[i])
  }

  /** Drops leading white space: the result is a suffix of `s`, and what was dropped is white space. */
  function TrimStart(s: string): (r: string)
    ensures |r| <= |s| && r == s[|s| - |r|..]
    ensures AllSpace(s[..|s| - |r|])
    ensures r != [] ==> !IsJsSpace(r[0])
  {
    if s != [] && IsJsSpace(s[0]) then TrimStart(s[1..]) else s
  }

  /** Drops trailing white space: the result is a prefix of `s`, and what was dropped is white space. */
  function TrimEnd(s: string): (r: string)
    ensures |r| <= |s| && r == s[..|r|]
    ensures AllSpace(s[|r|..])
    ensures r != [] ==> !IsJsSpace(r[|r| - 1])
  {
    if s != [] && IsJsSpace(s[|s| - 1]) then TrimEnd(s[..|s| - 1]) else s
  }

  /** `String.prototype.trim`: the infix of `s` left after white space is
      dropped from both ends. */
  function Trim(s: string): (r: string)
    ensures exists i, j :: 0 <= i <= j <= |s| && r == s[i..j] && AllSpace(s[..i]) && AllSpace(s[j..])
    ensures r != [] ==> !IsJsSpace(r[0]) && !IsJsSpace(r[|r| - 1])
  {
    var a := TrimStart(s);
    var r := TrimEnd(a);
    var i := |s| - |a|;
    assert r == s[i..i + |r|];
    assert s[i + |r|..] == a[|r|..];
    r
  }

  /** Trimming yields nothing exactly when the input is all white space. */
  lemma TrimEmpty(s: string)
    ensures Trim(s) == [] <==> AllSpace(s)
  {
    var a := TrimStart(s);
    if Trim(s) == [] {
      assert AllSpace(a[..0]) ;
      assert s == s[..|s| - |a|] + a;
    }
  }

  lemma {:induction false} NormalizeSpace(s: string)
    requires AllSpace(s)
    ensures Normalize(s) == []
  {
    if s != [] {
      NormalizeHead(s);
      KeyOfCases(s[0]);
      NormalizeSpace(s[1..]);
    }
  }

  /** Trimming a guess never changes its key: white space is not a key character. */
  lemma TrimKeepsKey(s: string)
    ensures Normalize(Trim(s)) == Normalize(s)
  {
    TrimStartKeepsKey(s);
    TrimEndKeepsKey(TrimStart(s));
  }

  lemma TrimStartKeepsKey(s: string)
    ensures Normalize(TrimStart(s)) == Normalize(s)
  {
    var a := TrimStart(s);
    var dropped := s[..|s| - |a|];
    assert s == dropped + a;
    NormalizeAppend(dropped, a);
    NormalizeSpace(dropped);
  }

  lemma TrimEndKeepsKey(s: string)
    ensures Normalize(TrimEnd(s)) == Normalize(s)
  {
    var b := TrimEnd(s);
    var dropped := s[|b|..];
    assert s == b + dropped;
    NormalizeAppend(b, dropped);
    NormalizeSpace(dropped);
  }

  /** A key followed by the female glyph normalises to the key and `f`. */
  lemma KeyThenFemaleSign(s: string)
    requires IsKey(s)
    ensures Normalize(s + [FemaleSign]) == s + "f"
  {
    NormalizeAppend(s, [FemaleSign]);
    NormalizeFixesKeys(s);
    NormalizeSingle(FemaleSign);
    KeyOfCases(FemaleSign);
  }

  /** Worked example: the female glyph counts as a trailing `f`, so
      "Nidoran♀" does not share the key "nidoran" of the catalogue's two
      plainly named Nidoran entries. */
  lemma NidoranGlyphExample()
    ensures Normalize("Nidoran" + [FemaleSign]) == "nidoranf"
  {
    var tail := "idoran" + [FemaleSign];
    assert IsKey("idoran");
    KeyThenFemaleSign("idoran");
    assert "Nidoran" + [FemaleSign] == ['N'] + tail;
    NormalizeAppend(['N'], tail);
    NormalizeSingle('N');
    KeyOfCases('N');
  }
}
