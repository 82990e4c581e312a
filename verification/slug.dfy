/** Identifier derivation shared by both registries.

    A record's id is computed from its display name by the five-stage pipeline
    of `src/utils/mediosPago.js` lines 30-34 (repeated verbatim in
    `src/utils/categorias.js` lines 35-39):

      1. `toLowerCase()`
      2. `normalize('NFD')`
      3. remove every combining diacritical mark U+0300..U+036F
      4. replace every run of whitespace (`\s+`) by a single `-`
      5. remove every character outside `[a-z0-9-]`

    Strings are sequences of Unicode scalar values. The Unicode case-mapping and
    decomposition tables are restricted to ASCII and the Latin-1 letters, which
    is where the names of these registries live; every other character is left
    as it is by stages 1 and 2.
 */
module Slugs {

  /** The characters JavaScript's `\s` class matches (ECMAScript WhiteSpace and
      LineTerminator, Unicode 15 Space_Separator included). */
  predicate IsSpace(c: char) {
    || c == '\t' || c == '\n' || c == '\U{000B}' || c == '\U{000C}' || c == '\r'
    || c == ' ' || c == '\U{00A0}' || c == '\U{1680}'
    || ('\U{2000}' <= c <= '\U{200A}')
    || c == '\U{2028}' || c == '\U{2029}' || c == '\U{202F}' || c == '\U{205F}'
    || c == '\U{3000}' || c == '\U{FEFF}'
  }

  /** The block of combining diacritical marks, U+0300..U+036F, that the
      accent-stripping stage removes. */
  predicate IsCombiningMark(c: char) {
    '\U{0300}' <= c <= '\U{036F}'
  }

  /** The characters an id may consist of: `[a-z0-9-]`. */
  predicate IsSlugChar(c: char) {
    ('a' <= c <= 'z') || ('0' <= c <= '9') || c == '-'
  }

  predicate AllSlugChars(s: seq<char>) {
    forall i :: 0 <= i < |s| ==> IsSlugChar(s[i])
  }

  predicate NoSpace(s: seq<char>) {
    forall i :: 0 <= i < |s| ==> !IsSpace(s[i])
  }

  predicate NoMarks(s: seq<char>) {
    forall i :: 0 <= i < |s| ==> !IsCombiningMark(s[i])
  }

  predicate AllSpace(s: seq<char>) {
    forall i :: 0 <= i < |s| ==> IsSpace(s[i])
  }

  // ---------------------------------------------------------------------------
  // Stage 1: lower case
  // ---------------------------------------------------------------------------

  /** Simple lower-case mapping of ASCII and Latin-1 capitals (U+00D7, the
      multiplication sign, is not a letter and stays). */
  function Lower(c: char): (r: char)
    ensures !('A' <= r <= 'Z')
    ensures IsSlugChar(c) ==> r == c
    ensures IsSpace(c) ==> r == c
    ensures IsSpace(r) <==> IsSpace(c)
    ensures IsCombiningMark(r) <==> IsCombiningMark(c)
  {
    if ('A' <= c <= 'Z') || ('\U{00C0}' <= c <= '\U{00DE}' && c != '\U{00D7}')
    then (c as int + 32) as char
    else c
  }

  function LowerAll(s: seq<char>): (r: seq<char>)
    ensures |r| == |s|
  {
    if s == [] then [] else [Lower(s[0])] + LowerAll(s[1..])
  }

  // ---------------------------------------------------------------------------
  // Stage 2: canonical decomposition
  // ---------------------------------------------------------------------------

  /** Base letters of the canonical decompositions of U+00C0..U+00FF, one per
      code point; '.' marks a character without a decomposition (Æ, Ð, ×, Ø,
      Þ, ß, æ, ð, ÷, ø, þ). */
  const LatinBases: string := "AAAAAA.CEEEEIIII.NOOOOO..UUUUY..aaaaaa.ceeeeiiii.nooooo..uuuuy.y"

  /** The combining mark that follows the base letter, indexed by the code
      point's offset within its 32-character half (upper and lower case share
      one layout); '.' where there is none. */
  const LatinMarks: string := "\U{0300}\U{0301}\U{0302}\U{0303}\U{0308}\U{030A}.\U{0327}\U{0300}\U{0301}\U{0302}\U{0308}\U{0300}\U{0301}\U{0302}\U{0308}.\U{0303}\U{0300}\U{0301}\U{0302}\U{0303}\U{0308}..\U{0300}\U{0301}\U{0302}\U{0308}\U{0301}.\U{0308}"

  predicate IsAsciiLetter(c: char) {
    ('a' <= c <= 'z') || ('A' <= c <= 'Z')
  }

  /** Canonical decomposition of one character: a precomposed Latin-1 letter
      splits into its base letter and one combining mark; every other
      character is its own decomposition. */
  function Decompose(c: char): (r: seq<char>)
    ensures 1 <= |r| <= 2
    ensures |r| == 1 ==> r[0] == c
    ensures |r| == 2 ==> '\U{00C0}' <= c <= '\U{00FF}' && IsAsciiLetter(r[0]) && IsCombiningMark(r[1])
  {
    if '\U{00C0}' <= c <= '\U{00FF}' then
      var k := c as int - 0xC0;
      var base, mark := LatinBases[k], LatinMarks[k % 32];
      if IsAsciiLetter(base) && IsCombiningMark(mark) then [base, mark] else [c]
    else
      [c]
  }

  function Nfd(s: seq<char>): seq<char> {
    if s == [] then [] else Decompose(s[0]) + Nfd(s[1..])
  }

  // ---------------------------------------------------------------------------
  // Stage 3: strip diacritics
  // ---------------------------------------------------------------------------

  function StripMarks(s: seq<char>): seq<char> {
    if s == [] then []
    else if IsCombiningMark(s[0]) then StripMarks(s[1..])
    else [s[0]] + StripMarks(s[1..])
  }

  // ---------------------------------------------------------------------------
  // Stage 4: whitespace runs become one hyphen
  // ---------------------------------------------------------------------------

  /** The suffix of `s` after its leading whitespace. */
  function DropSpaces(s: seq<char>): (r: seq<char>)
    ensures |r| <= |s|
    ensures r == [] || !IsSpace(r[0])
  {
    if s != [] && IsSpace(s[0]) then DropSpaces(s[1..]) else s
  }

  function Hyphenate(s: seq<char>): seq<char>
    decreases |s|
  {
    if s == [] then []
    else if IsSpace(s[0]) then "-" + Hyphenate(DropSpaces(s[1..]))
    else [s[0]] + Hyphenate(s[1..])
  }

  // ---------------------------------------------------------------------------
  // Stage 5: keep only [a-z0-9-]
  // ---------------------------------------------------------------------------

  function KeepSlugChars(s: seq<char>): seq<char> {
    if s == [] then []
    else if IsSlugChar(s[0]) then [s[0]] + KeepSlugChars(s[1..])
    else KeepSlugChars(s[1..])
  }

  // ---------------------------------------------------------------------------
  // The pipeline
  // ---------------------------------------------------------------------------

  /** Stages 1-3: the name lower-cased, decomposed and stripped of accents. */
  function Fold(name: string): string {
    StripMarks(Nfd(LowerAll(name)))
  }

  /** The id a registry derives from a display name. Every character of it is
      in `[a-z0-9-]`, and a name that already is a slug is its own id. */
  function Slug(name: string): (id: string)
    ensures AllSlugChars(id)
    ensures AllSlugChars(name) ==> id == name
  {
    KeepSlugCharsSpec(Hyphenate(Fold(name)));
    SlugsAreFixed(name);
    KeepSlugChars(Hyphenate(Fold(name)))
  }

  /** Slugging is idempotent: an id re-slugged is the same id. */
  lemma SlugIdempotent(name: string)
    ensures Slug(Slug(name)) == Slug(name)
  {
  }

  // ---------------------------------------------------------------------------
  // What each stage guarantees
  // ---------------------------------------------------------------------------

  /** Stage 5 leaves only slug characters, and leaves a slug as it is. It
      removes the other characters rather than replacing them: each slug
      character keeps its count and every other character drops to none. */
  lemma {:induction false} KeepSlugCharsSpec(s: seq<char>)
    ensures AllSlugChars(KeepSlugChars(s))
    ensures AllSlugChars(s) ==> KeepSlugChars(s) == s
    ensures forall c :: multiset(KeepSlugChars(s))[c] == if IsSlugChar(c) then multiset(s)[c] else 0
  {
    if s != [] {
      KeepSlugCharsSpec(s[1..]);
      var r := KeepSlugChars(s[1..]);
      assert s == [s[0]] + s[1..];
      if IsSlugChar(s[0]) {
        assert KeepSlugChars(s) == [s[0]] + r;
      }
    }
  }

  /** Stage 3 leaves no combining mark, and leaves text without one as it
      is. It removes the marks rather than replacing them: each other
      character keeps its count and every mark drops to none. */
  lemma {:induction false} StripMarksSpec(s: seq<char>)
    ensures NoMarks(StripMarks(s))
    ensures NoMarks(s) ==> StripMarks(s) == s
    ensures forall c :: multiset(StripMarks(s))[c] == if IsCombiningMark(c) then 0 else multiset(s)[c]
  {
    StripMarksClean(s);
    StripMarksCounts(s);
  }

  /** The first two clauses of `StripMarksSpec`, proved apart from the
      counts so that neither induction carries the other's facts. */
  lemma {:induction false} StripMarksClean(s: seq<char>)
    ensures NoMarks(StripMarks(s))
    ensures NoMarks(s) ==> StripMarks(s) == s
  {
    if s != [] {
      StripMarksClean(s[1..]);
      var r := StripMarks(s[1..]);
      if !IsCombiningMark(s[0]) {
        assert StripMarks(s) == [s[0]] + r;
      }
      if NoMarks(s) {
        assert NoMarks(s[1..]);
        assert [s[0]] + s[1..] == s;
      }
    }
  }

  /** The count clause of `StripMarksSpec`. */
  lemma {:induction false} StripMarksCounts(s: seq<char>)
    ensures forall c :: multiset(StripMarks(s))[c] == if IsCombiningMark(c) then 0 else multiset(s)[c]
  {
    if s != [] {
      StripMarksCounts(s[1..]);
      assert s == [s[0]] + s[1..];
      if !IsCombiningMark(s[0]) {
        assert StripMarks(s) == [s[0]] + StripMarks(s[1..]);
      }
    }
  }

  /** Every stage leaves a string of slug characters as it is. */
  lemma {:induction false} SlugsAreFixed(s: seq<char>)
    ensures AllSlugChars(s) ==> LowerAll(s) == s && Nfd(s) == s && StripMarks(s) == s && Hyphenate(s) == s
  {
    if s != [] && AllSlugChars(s) {
      SlugsAreFixed(s[1..]);
      assert IsSlugChar(s[0]);
      assert [s[0]] + s[1..] == s;
    }
  }

  /** Stage 4 leaves no whitespace, and leaves whitespace-free text as it is. */
  lemma {:induction false} HyphenateSpec(s: seq<char>)
    ensures NoSpace(Hyphenate(s))
    ensures NoSpace(s) ==> Hyphenate(s) == s
    decreases |s|
  {
    if s != [] {
      if IsSpace(s[0]) {
        var rest := DropSpaces(s[1..]);
        HyphenateSpec(rest);
        assert Hyphenate(s) == "-" + Hyphenate(rest);
      } else {
        HyphenateSpec(s[1..]);
        assert Hyphenate(s) == [s[0]] + Hyphenate(s[1..]);
        if NoSpace(s) {
          assert NoSpace(s[1..]);
          assert [s[0]] + s[1..] == s;
        }
      }
    }
  }

  // ---------------------------------------------------------------------------
  // Each stage distributes over concatenation
  // ---------------------------------------------------------------------------

  lemma {:induction false} LowerAllAppend(a: seq<char>, b: seq<char>)
    ensures LowerAll(a + b) == LowerAll(a) + LowerAll(b)
  {
    if a == [] {
      assert a + b == b;
    } else {
      var t := a + b;
      assert t[0] == a[0] && t[1..] == a[1..] + b;
      LowerAllAppend(a[1..], b);
    }
  }

  lemma {:induction false} NfdAppend(a: seq<char>, b: seq<char>)
    ensures Nfd(a + b) == Nfd(a) + Nfd(b)
  {
    if a == [] {
      assert a + b == b;
    } else {
      var t := a + b;
      assert t[0] == a[0] && t[1..] == a[1..] + b;
      NfdAppend(a[1..], b);
    }
  }

  lemma {:induction false} StripMarksAppend(a: seq<char>, b: seq<char>)
    ensures StripMarks(a + b) == StripMarks(a) + StripMarks(b)
  {
    if a == [] {
      assert a + b == b;
    } else {
      var t := a + b;
      assert t[0] == a[0] && t[1..] == a[1..] + b;
      StripMarksAppend(a[1..], b);
    }
  }

  lemma {:induction false} KeepSlugCharsAppend(a: seq<char>, b: seq<char>)
    ensures KeepSlugChars(a + b) == KeepSlugChars(a) + KeepSlugChars(b)
  {
    if a == [] {
      assert a + b == b;
    } else {
      var t := a + b;
      assert t[0] == a[0] && t[1..] == a[1..] + b;
      KeepSlugCharsAppend(a[1..], b);
    }
  }

  lemma {:induction false} FoldAppend(a: string, b: string)
    ensures Fold(a + b) == Fold(a) + Fold(b)
  {
    LowerAllAppend(a, b);
    NfdAppend(LowerAll(a), LowerAll(b));
    StripMarksAppend(Nfd(LowerAll(a)), Nfd(LowerAll(b)));
  }

  /** Stages 1-3 neither create nor destroy whitespace. */
  lemma {:induction false} FoldKeepsSpaces(s: string)
    ensures NoSpace(s) ==> NoSpace(Fold(s))
    ensures AllSpace(s) ==> Fold(s) == s
  {
    if s != [] {
      var c, rest := s[0], s[1..];
      FoldKeepsSpaces(rest);
      FoldAppend([c], rest);
      assert [c] + rest == s;
      FoldChar(c);
      if NoSpace(s) {
        assert NoSpace(rest);
        NoSpaceAppend(Fold([c]), Fold(rest));
      }
      if AllSpace(s) {
        assert AllSpace(rest);
      }
    }
  }

  lemma FoldChar(c: char)
    ensures IsSpace(c) ==> Fold([c]) == [c]
    ensures !IsSpace(c) ==> NoSpace(Fold([c]))
  {
    var x := Lower(c);
    var d := Decompose(x);
    assert [c][1..] == [];
    assert LowerAll([c]) == [x];
    assert [x][1..] == [];
    assert Nfd([x]) == d;
    assert Fold([c]) == StripMarks(d);
    if |d| == 1 {
      assert d[1..] == [];
      assert StripMarks(d) == if IsCombiningMark(x) then [] else [x];
    } else {
      assert d[1..] == [d[1]];
      assert [d[1]][1..] == [];
      assert StripMarks([d[1]]) == [];
      assert !IsCombiningMark(d[0]);
      assert StripMarks(d) == [d[0]] + StripMarks(d[1..]);
    }
  }

  lemma NoSpaceAppend(a: seq<char>, b: seq<char>)
    requires NoSpace(a) && NoSpace(b)
    ensures NoSpace(a + b)
  {
    assert forall i :: 0 <= i < |a + b| ==> (a + b)[i] == if i < |a| then a[i] else b[i - |a|];
  }

  lemma {:induction false} DropSpacesAppend(w: seq<char>, b: seq<char>)
    requires AllSpace(w)
    requires b == [] || !IsSpace(b[0])
    ensures DropSpaces(w + b) == b
  {
    if w != [] {
      assert (w + b)[1..] == w[1..] + b;
      DropSpacesAppend(w[1..], b);
    }
  }

  lemma {:induction false} DropSpacesPrefix(a: seq<char>, t: seq<char>)
    requires a != [] && !IsSpace(a[|a| - 1])
    ensures DropSpaces(a + t) == DropSpaces(a) + t
    ensures DropSpaces(a) != [] && !IsSpace(DropSpaces(a)[|DropSpaces(a)| - 1])
  {
    if IsSpace(a[0]) {
      assert (a + t)[1..] == a[1..] + t;
      DropSpacesPrefix(a[1..], t);
    }
  }

  /** Hyphenation distributes over a split that does not fall inside a
      whitespace run. */
  lemma {:induction false} HyphenateAppend(a: seq<char>, t: seq<char>)
    requires a == [] || !IsSpace(a[|a| - 1])
    ensures Hyphenate(a + t) == Hyphenate(a) + Hyphenate(t)
    decreases |a|
  {
    if a == [] {
      assert a + t == t;
    } else if IsSpace(a[0]) {
      var rest := DropSpaces(a[1..]);
      DropSpacesPrefix(a[1..], t);
      assert (a + t)[1..] == a[1..] + t;
      HyphenateAppend(rest, t);
      HyphenateAppendSpace(a, t);
    } else {
      HyphenateAppend(a[1..], t);
      HyphenateAppendOther(a, t);
    }
  }

  lemma HyphenateAppendSpace(a: seq<char>, t: seq<char>)
    requires a != [] && IsSpace(a[0])
    requires DropSpaces((a + t)[1..]) == DropSpaces(a[1..]) + t
    requires Hyphenate(DropSpaces(a[1..]) + t) == Hyphenate(DropSpaces(a[1..])) + Hyphenate(t)
    ensures Hyphenate(a + t) == Hyphenate(a) + Hyphenate(t)
  {
    assert (a + t)[0] == a[0];
  }

  lemma HyphenateAppendOther(a: seq<char>, t: seq<char>)
    requires a != [] && !IsSpace(a[0])
    requires Hyphenate(a[1..] + t) == Hyphenate(a[1..]) + Hyphenate(t)
    ensures Hyphenate(a + t) == Hyphenate(a) + Hyphenate(t)
  {
    var c, u := a[0], a[1..];
    assert a == [c] + u;
    assert a + t == [c] + (u + t);
    HyphenateCons(c, u + t);
    HyphenateCons(c, u);
  }

  lemma HyphenateCons(c: char, u: seq<char>)
    requires !IsSpace(c)
    ensures Hyphenate([c] + u) == [c] + Hyphenate(u)
  {
    var s := [c] + u;
    assert s[0] == c && s[1..] == u;
  }

  lemma HyphenateLeadingRun(w: seq<char>, b: seq<char>)
    requires w != [] && AllSpace(w)
    requires b == [] || !IsSpace(b[0])
    ensures Hyphenate(w + b) == "-" + Hyphenate(b)
  {
    var wb := w + b;
    assert wb[0] == w[0];
    assert wb[1..] == w[1..] + b;
    DropSpacesAppend(w[1..], b);
  }

  /** A whitespace run between two words becomes exactly one hyphen. */
  lemma {:induction false} HyphenateRun(a: seq<char>, w: seq<char>, b: seq<char>)
    requires a == [] || !IsSpace(a[|a| - 1])
    requires w != [] && AllSpace(w)
    requires b == [] || !IsSpace(b[0])
    ensures Hyphenate(a + w + b) == Hyphenate(a) + "-" + Hyphenate(b)
  {
    var wb := w + b;
    assert a + w + b == a + wb;
    HyphenateAppend(a, wb);
    HyphenateLeadingRun(w, b);
    var ha, hb := Hyphenate(a), Hyphenate(b);
    assert ha + ("-" + hb) == ha + "-" + hb;
  }

  /** Splitting a name at a whitespace run splits its id at one hyphen, as
      long as the text before the run does not itself end in whitespace once
      lower-cased and stripped of accents, and the text after it has none. */
  lemma {:induction false} SlugSplitsAtRun(a: string, w: string, b: string)
    requires Fold(a) == [] || !IsSpace(Fold(a)[|Fold(a)| - 1])
    requires w != [] && AllSpace(w)
    requires NoSpace(b)
    ensures Slug(a + w + b) == Slug(a) + "-" + Slug(b)
  {
    var fa, fb := Fold(a), Fold(b);
    FoldAppend(a + w, b);
    FoldAppend(a, w);
    FoldKeepsSpaces(w);
    assert Fold(a + w + b) == fa + w + fb;
    FoldKeepsSpaces(b);
    assert fb == [] || !IsSpace(fb[0]);
    HyphenateRun(fa, w, fb);
    var ha, hb := Hyphenate(fa), Hyphenate(fb);
    assert Hyphenate(Fold(a + w + b)) == ha + "-" + hb;
    KeepSlugCharsAppend(ha + "-", hb);
    KeepSlugCharsAppend(ha, "-");
    assert KeepSlugChars("-") == "-";
    assert Slug(a) == KeepSlugChars(ha) && Slug(b) == KeepSlugChars(hb);
  }

  /** Two whitespace-free words joined by any whitespace run slug to their
      slugs joined by one hyphen. */
  lemma SlugJoinsWords(a: string, w: string, b: string)
    requires NoSpace(a) && NoSpace(b)
    requires w != [] && AllSpace(w)
    ensures Slug(a + w + b) == Slug(a) + "-" + Slug(b)
  {
    FoldKeepsSpaces(a);
    SlugSplitsAtRun(a, w, b);
  }

  // ---------------------------------------------------------------------------
  // Worked example: "Café Con Leche" becomes "cafe-con-leche"
  // ---------------------------------------------------------------------------

  /** A word of ASCII letters has no whitespace, and its id is the word in
      lower case. */
  lemma AsciiWordSlug(w: string)
    requires forall i :: 0 <= i < |w| ==> IsAsciiLetter(w[i])
    ensures NoSpace(w)
    ensures AllSlugChars(LowerAll(w))
    ensures Fold(w) == LowerAll(w) && Slug(w) == LowerAll(w)
  {
    var l := LowerAll(w);
    LowerAsciiWord(w);
    SlugsAreFixed(l);
    KeepSlugCharsSpec(l);
    assert Fold(w) == l;
    assert Slug(w) == KeepSlugChars(Hyphenate(l));
    AsciiLettersAreNoSpace(w);
  }

  /** A name that starts with a word of ASCII letters has an id that starts
      with that word in lower case, whatever follows it. */
  lemma SlugOfAsciiPrefix(w: string, rest: string)
    requires w != [] && forall i :: 0 <= i < |w| ==> IsAsciiLetter(w[i])
    ensures |Slug(w + rest)| >= |w| && Slug(w + rest)[..|w|] == LowerAll(w)
  {
    var l := LowerAll(w);
    var h := Hyphenate(Fold(rest));
    AsciiWordSlug(w);
    FoldAppend(w, rest);
    SlugsAreFixed(l);
    assert IsSlugChar(l[|l| - 1]);
    HyphenateAppend(l, Fold(rest));
    KeepSlugCharsSpec(l);
    KeepSlugCharsAppend(l, h);
    assert Slug(w + rest) == l + KeepSlugChars(h);
  }

  lemma AsciiLettersAreNoSpace(w: string)
    requires forall i :: 0 <= i < |w| ==> IsAsciiLetter(w[i])
    ensures NoSpace(w)
  {
    forall i | 0 <= i < |w|
      ensures !IsSpace(w[i])
    {
      assert IsAsciiLetter(w[i]);
    }
  }

  lemma {:induction false} LowerAsciiWord(w: string)
    requires forall i :: 0 <= i < |w| ==> IsAsciiLetter(w[i])
    ensures AllSlugChars(LowerAll(w))
  {
    if w != [] {
      LowerAsciiWord(w[1..]);
      assert LowerAll(w) == [Lower(w[0])] + LowerAll(w[1..]);
    }
  }

  /** The lower-case forms of the plain words the examples use. */
  lemma LowerWords()
    ensures LowerAll("Con") == "con" && LowerAll("Leche") == "leche"
    ensures LowerAll("Otro") == "otro" && LowerAll("Otros") == "otros" && LowerAll("Ta") == "ta"
  {
  }

  lemma DecomposeEAcute()
    ensures Decompose('é') == "e\U{0301}"
  {
  }

  lemma NfdCafe(x: string)
    requires x == "café"
    ensures Nfd(x) == "cafe\U{0301}"
  {
    var p, e := "caf", "é";
    assert x == p + e;
    NfdAppend(p, e);
    assert AllSlugChars(p);
    SlugsAreFixed(p);
    DecomposeEAcute();
    assert e[1..] == [];
    assert Nfd(e) == Decompose(e[0]) + Nfd([]);
  }

  /** The stages of "Café" other than decomposition. */
  lemma CafeStages()
    ensures LowerAll("Café") == "café" && NoSpace("Café")
    ensures StripMarks("cafe\U{0301}") == "cafe" && AllSlugChars("cafe")
  {
    var w := "Café";
    forall i | 0 <= i < |w|
      ensures !IsSpace(w[i])
    {
      assert w[i] in "Caf\U{00E9}";
    }
  }

  lemma WordCafe(a: string)
    requires a == "Café"
    ensures Fold(a) == "cafe" && Slug(a) == "cafe" && NoSpace(a)
  {
    CafeStages();
    NfdCafe(LowerAll(a));
    SlugsAreFixed("cafe");
    KeepSlugCharsSpec("cafe");
  }

  /** Three whitespace-free words joined by single spaces slug to their
      slugs joined by hyphens, as long as the middle word does not vanish
      when folded. */
  lemma SlugJoinsThreeWords(a: string, b: string, c: string)
    requires NoSpace(a) && NoSpace(b) && NoSpace(c) && Fold(b) != []
    ensures Slug(a + " " + b + " " + c) == Slug(a) + "-" + Slug(b) + "-" + Slug(c)
  {
    var w := " ";
    assert AllSpace(w);
    SlugJoinsWords(a, w, b);
    FoldAppend(a + w, b);
    FoldKeepsSpaces(b);
    var fb := Fold(b);
    assert !IsSpace(fb[|fb| - 1]);
    var f := Fold(a + w + b);
    assert f == Fold(a + w) + fb;
    assert f[|f| - 1] == fb[|fb| - 1];
    SlugSplitsAtRun(a + w + b, w, c);
  }

  /** A word of ASCII letters whose lower-case form is `l` has the id `l`:
      `AsciiWordSlug` with the lower-case form named, so that callers can
      supply it from a separately proved literal fact. */
  lemma AsciiWordIs(w: string, l: string)
    requires forall i :: 0 <= i < |w| ==> IsAsciiLetter(w[i])
    requires LowerAll(w) == l
    ensures Slug(w) == l && Fold(w) == l && NoSpace(w)
  {
    AsciiWordSlug(w);
  }

  lemma SlugExampleWords(a: string, b: string, c: string)
    requires a == "Café" && b == "Con" && c == "Leche"
    ensures Slug(a + " " + b + " " + c) == "cafe-con-leche"
  {
    WordCafe(a);
    LowerWords();
    AsciiWordIs(b, "con");
    AsciiWordIs(c, "leche");
    SlugJoinsThreeWords(a, b, c);
    JoinedExample();
  }

  /** The literal concatenation, kept apart from `SlugExampleWords`, where
      proving it inline is costly for the solver. */
  lemma JoinedExample()
    ensures "cafe" + "-" + "con" + "-" + "leche" == "cafe-con-leche"
  {
  }

  /** The worked example of the identifier rule. */
  lemma SlugExample()
    ensures Slug("Café Con Leche") == "cafe-con-leche"
  {
    var a, b, c := "Café", "Con", "Leche";
    SlugExampleWords(a, b, c);
    assert a + " " + b + " " + c == "Café Con Leche";
  }
}
