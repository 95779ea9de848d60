/** The normal form the table search compares text in: JavaScript's
    `toLowerCase`, then `trim`, then `normalize('NFD')`, then removal of the
    combining diacritical marks U+0300 to U+036F. Case mapping and
    decomposition are modelled for ASCII and Latin-1. */
module Normalisation {
  import opened Selection

  /** A capital letter that `toLowerCase` changes, within ASCII and
      Latin-1 (U+00D7, the multiplication sign, is not a letter). */
  predicate IsCapital(c: char)
  {
    'A' <= c <= 'Z' || ('\U{00C0}' <= c <= '\U{00DE}' && c != '\U{00D7}')
  }

  predicate NoCapital(s: string)
  {
    forall i :: 0 <= i < |s| ==> !IsCapital(s[i])
  }

  /** `toLowerCase` on one character: capitals move 32 code points up. */
  function LowerChar(c: char): (r: char)
    ensures !IsCapital(r)
    ensures !IsCapital(c) ==> r == c
  {
    if IsCapital(c) then (c as int + 32) as char else c
  }

  /** `toLowerCase`: each character is lower-cased in its place, so no
      capital is left and text without capitals is unchanged. */
  function Lower(s: string): (r: string)
    ensures |r| == |s|
    ensures forall i :: 0 <= i < |s| ==> r[i] == LowerChar(s[i])
    ensures NoCapital(r)
    ensures NoCapital(s) ==> r == s
    decreases |s|
  {
    if s == [] then [] else [LowerChar(s[0])] + Lower(s[1..])
  }

  /** The characters `trim` removes: ECMAScript's white space and line
      terminators. */
  predicate IsWhitespace(c: char)
  {
    c == '\t' || c == '\n' || c == '\U{000B}' || c == '\U{000C}' || c == '\r' || c == ' ' ||
    c == '\U{00A0}' || c == '\U{1680}' || ('\U{2000}' <= c <= '\U{200A}') ||
    c == '\U{2028}' || c == '\U{2029}' || c == '\U{202F}' || c == '\U{205F}' ||
    c == '\U{3000}' || c == '\U{FEFF}'
  }

  predicate AllWhitespace(s: string)
  {
    forall i :: 0 <= i < |s| ==> IsWhitespace(s[i])
  }

  /** Drop leading white space: the result is a suffix that does not begin
      with white space, and everything dropped was white space. */
  function TrimStart(s: string): (r: string)
    ensures |r| <= |s| && r == s[|s| - |r|..]
    ensures r == [] || !IsWhitespace(r[0])
    ensures AllWhitespace(s[..|s| - |r|])
    decreases |s|
  {
    if s != [] && IsWhitespace(s[0]) then
      var r := TrimStart(s[1..]);
      assert s[..|s| - |r|] == [s[0]] + s[1..][..|s| - 1 - |r|];
      r
    else s
  }

  /** Drop trailing white space: the result is a prefix that does not end
      with white space, and everything dropped was white space. */
  function TrimEnd(s: string): (r: string)
    ensures |r| <= |s| && r == s[..|r|]
    ensures r == [] || !IsWhitespace(r[|r| - 1])
    ensures AllWhitespace(s[|r|..])
    decreases |s|
  {
    if s != [] && IsWhitespace(s[|s| - 1]) then
      var r := TrimEnd(s[..|s| - 1]);
      assert s[|r|..] == s[..|s| - 1][|r|..] + [s[|s| - 1]];
      r
    else s
  }

  /** `trim`. */
  function Trim(s: string): string
  {
    TrimEnd(TrimStart(s))
  }

  /** A combining diacritical mark, the range the search strips. */
  predicate IsMark(c: char)
  {
    '\U{0300}' <= c <= '\U{036F}'
  }

  predicate NoMark(s: string)
  {
    forall i :: 0 <= i < |s| ==> !IsMark(s[i])
  }

  /** Every character lies below U+00C0, where no letter decomposes. */
  predicate Unaccented(s: string)
  {
    forall i :: 0 <= i < |s| ==> s[i] < '\U{00C0}'
  }

  /** The canonical decomposition of the lower-case precomposed Latin-1
      letter with code point `k` (U+00E0 to U+00FF): its base letter and its
      combining mark; empty when the letter does not decompose. */
  function LatinLetter(k: int): (r: string)
    ensures r == [] || (|r| == 2 && 'a' <= r[0] <= 'z' && IsMark(r[1]))
  {
    match k
    case 0xE0 => "a\U{0300}"
    case 0xE1 => "a\U{0301}"
    case 0xE2 => "a\U{0302}"
    case 0xE3 => "a\U{0303}"
    case 0xE4 => "a\U{0308}"
    case 0xE5 => "a\U{030A}"
    case 0xE7 => "c\U{0327}"
    case 0xE8 => "e\U{0300}"
    case 0xE9 => "e\U{0301}"
    case 0xEA => "e\U{0302}"
    case 0xEB => "e\U{0308}"
    case 0xEC => "i\U{0300}"
    case 0xED => "i\U{0301}"
    case 0xEE => "i\U{0302}"
    case 0xEF => "i\U{0308}"
    case 0xF1 => "n\U{0303}"
    case 0xF2 => "o\U{0300}"
    case 0xF3 => "o\U{0301}"
    case 0xF4 => "o\U{0302}"
    case 0xF5 => "o\U{0303}"
    case 0xF6 => "o\U{0308}"
    case 0xF9 => "u\U{0300}"
    case 0xFA => "u\U{0301}"
    case 0xFB => "u\U{0302}"
    case 0xFC => "u\U{0308}"
    case 0xFD => "y\U{0301}"
    case 0xFF => "y\U{0308}"
    case _ => ""
  }

  /** Canonical decomposition of one character: a precomposed Latin-1
      letter becomes its base letter followed by its combining mark, and a
      capital decomposes like its lower-case letter with a capital base. */
  function DecomposeChar(c: char): (r: seq<char>)
    ensures 1 <= |r| <= 2
    ensures |r| == 1 ==> r[0] == c
    ensures |r| == 2 ==> '\U{00C0}' <= c <= '\U{00FF}' && IsMark(r[1]) && !IsMark(r[0]) && (IsCapital(r[0]) ==> IsCapital(c))
  {
    var k := c as int;
    if 0xE0 <= k <= 0xFF && LatinLetter(k) != [] then LatinLetter(k)
    else if 0xC0 <= k <= 0xDE && LatinLetter(k + 32) != [] then
      [(LatinLetter(k + 32)[0] as int - 32) as char, LatinLetter(k + 32)[1]]
    else [c]
  }

  /** `normalize('NFD')`, within the precomposed Latin-1 letters:
      decomposition adds no capital, and leaves unaccented text alone. */
  function Decompose(s: string): (r: string)
    ensures NoCapital(s) ==> NoCapital(r)
    ensures Unaccented(s) ==> r == s
    decreases |s|
  {
    if s == [] then [] else DecomposeChar(s[0]) + Decompose(s[1..])
  }

  /** Removal of the combining marks: what is left holds none, comes from
      the input, and text without marks is unchanged. */
  function StripMarks(s: string): (r: string)
    ensures |r| <= |s|
    ensures NoMark(r)
    ensures forall c :: c in r ==> c in s
    ensures NoMark(s) ==> r == s
    decreases |s|
  {
    if s == [] then []
    else if IsMark(s[0]) then StripMarks(s[1..])
    else [s[0]] + StripMarks(s[1..])
  }

  /** Decomposition works character by character. */
  lemma {:induction false} DecomposeAppend(a: string, b: string)
    ensures Decompose(a + b) == Decompose(a) + Decompose(b)
    decreases |a|
  {
    if a == [] {
      assert a + b == b;
    } else {
      assert (a + b)[0] == a[0];
      assert (a + b)[1..] == a[1..] + b;
      DecomposeAppend(a[1..], b);
    }
  }

  /** Removing the marks works character by character. */
  lemma {:induction false} StripMarksAppend(a: string, b: string)
    ensures StripMarks(a + b) == StripMarks(a) + StripMarks(b)
    decreases |a|
  {
    if a == [] {
      assert a + b == b;
    } else {
      assert (a + b)[0] == a[0];
      assert (a + b)[1..] == a[1..] + b;
      StripMarksAppend(a[1..], b);
    }
  }

  /** Not a combining mark. */
  predicate NotMark(c: char)
  {
    !IsMark(c)
  }

  /** The regular-expression replacement is a filter: exactly the
      characters that are not marks survive, in their order. */
  lemma {:induction false} StripMarksFilters(s: string)
    ensures StripMarks(s) == Select(s, NotMark)
    decreases |s|
  {
    if s != [] {
      StripMarksFilters(s[1..]);
    }
  }

  /** What one character of a field value or term becomes in the normal
      form: a mark vanishes, any other character becomes one lower-case,
      unmarked character, its own lower-case form when it is unaccented and
      its plain base letter when it is an accented letter. */
  function FoldChar(c: char): (r: string)
    ensures IsMark(c) ==> r == []
    ensures !IsMark(c) ==> |r| == 1 && !IsCapital(r[0]) && !IsMark(r[0])
    ensures c < '\U{00C0}' ==> r == [LowerChar(c)]
    ensures |DecomposeChar(c)| == 2 ==> r == [LatinLetter(LowerChar(c) as int)[0]]
  {
    var lc := LowerChar(c);
    FoldCharFacts(c, lc, DecomposeChar(lc));
    StripMarks(DecomposeChar(lc))
  }

  lemma FoldCharFacts(c: char, lc: char, d: string)
    requires lc == LowerChar(c) && d == DecomposeChar(lc)
    ensures |d| == 2 ==> StripMarks(d) == [d[0]]
    ensures |DecomposeChar(c)| == 2 ==> d == LatinLetter(lc as int)
  {
    if |d| == 2 {
      assert d == [d[0]] + [d[1]];
      StripMarksAppend([d[0]], [d[1]]);
    }
  }

  /** The normal form of text without surrounding white space, character
      by character. */
  function Fold(s: string): string
    decreases |s|
  {
    if s == [] then [] else FoldChar(s[0]) + Fold(s[1..])
  }

  /** Lower-casing, decomposing and stripping marks is `Fold`. */
  lemma {:induction false} FoldsCore(s: string)
    ensures StripMarks(Decompose(Lower(s))) == Fold(s)
    decreases |s|
  {
    if s != [] {
      var lc, rest := LowerChar(s[0]), Lower(s[1..]);
      assert Lower(s) == [lc] + rest;
      DecomposeAppend([lc], rest);
      assert Decompose([lc]) == DecomposeChar(lc) + Decompose([]);
      StripMarksAppend(DecomposeChar(lc), Decompose(rest));
      FoldsCore(s[1..]);
    }
  }

  /** Lower-casing works character by character. */
  lemma LowerAppend(a: string, b: string)
    ensures Lower(a + b) == Lower(a) + Lower(b)
  {
    var l, r := Lower(a + b), Lower(a) + Lower(b);
    forall i | 0 <= i < |a + b| ensures l[i] == r[i] {
      if i < |a| {
        assert (a + b)[i] == a[i];
      } else {
        assert (a + b)[i] == b[i - |a|];
      }
    }
  }

  /** The normal form a field value and a term are compared in. */
  function Normalise(s: string): string
  {
    StripMarks(Decompose(Trim(Lower(s))))
  }

  /** Lower-casing leaves no capital, and trimming keeps that. */
  lemma TrimmedLowerHasNoCapital(s: string)
    ensures NoCapital(Trim(Lower(s)))
  {
    var l := Lower(s);
    var a := TrimStart(l);
    NoCapitalSlice(l, |l| - |a|, |l|);
    assert a == l[|l| - |a|..|l|];
    NoCapitalSlice(a, 0, |TrimEnd(a)|);
    assert TrimEnd(a) == a[0..|TrimEnd(a)|];
  }

  lemma NoCapitalSlice(s: string, i: int, j: int)
    requires NoCapital(s) && 0 <= i <= j <= |s|
    ensures NoCapital(s[i..j])
  {
    forall k | 0 <= k < j - i ensures !IsCapital(s[i..j][k]) {
      assert s[i..j][k] == s[i + k];
    }
  }

  /** A normal form holds no combining mark and no capital. */
  lemma NormalForm(s: string)
    ensures NoMark(Normalise(s)) && NoCapital(Normalise(s))
  {
    TrimmedLowerHasNoCapital(s);
    var d := Decompose(Trim(Lower(s)));
    var r := StripMarks(d);
    forall i | 0 <= i < |r| ensures !IsCapital(r[i]) {
      assert r[i] in r;
      var j :| 0 <= j < |d| && d[j] == r[i];
    }
  }

  /** Text already in normal form (no capital, no accent, no white space
      at either end) is its own normal form. */
  lemma NormaliseFixesNormalText(s: string)
    requires NoCapital(s) && Unaccented(s)
    requires s == [] || (!IsWhitespace(s[0]) && !IsWhitespace(s[|s| - 1]))
    ensures Normalise(s) == s
  {
    assert TrimStart(s) == s;
    assert TrimEnd(s) == s;
    assert NoMark(s);
  }

  /** The empty string is its own normal form. */
  lemma NormaliseEmpty()
    ensures Normalise("") == ""
  {
    NormaliseFixesNormalText("");
  }

  /** Leading white space is dropped up to the first other character. */
  lemma {:induction false} TrimStartSkipsWhitespace(w: string, t: string)
    requires AllWhitespace(w) && (t == [] || !IsWhitespace(t[0]))
    ensures TrimStart(w + t) == t
    decreases |w|
  {
    if w == [] {
      assert w + t == t;
    } else {
      assert (w + t)[0] == w[0];
      assert (w + t)[1..] == w[1..] + t;
      assert AllWhitespace(w[1..]) by {
        forall i | 0 <= i < |w[1..]| ensures IsWhitespace(w[1..][i]) {
          assert w[1..][i] == w[i + 1];
        }
      }
      TrimStartSkipsWhitespace(w[1..], t);
    }
  }

  /** Trailing white space is dropped back to the last other character. */
  lemma {:induction false} TrimEndSkipsWhitespace(t: string, w: string)
    requires AllWhitespace(w) && (t == [] || !IsWhitespace(t[|t| - 1]))
    ensures TrimEnd(t + w) == t
    decreases |w|
  {
    if w == [] {
      assert t + w == t;
    } else {
      var w' := w[..|w| - 1];
      assert (t + w)[|t + w| - 1] == w[|w| - 1];
      assert (t + w)[..|t + w| - 1] == t + w';
      assert AllWhitespace(w') by {
        forall i | 0 <= i < |w'| ensures IsWhitespace(w'[i]) {
          assert w'[i] == w[i];
        }
      }
      TrimEndSkipsWhitespace(t, w');
    }
  }

  /** `trim` removes exactly the white space around the text. */
  lemma TrimAround(w1: string, t: string, w2: string)
    requires AllWhitespace(w1) && AllWhitespace(w2)
    requires t == [] || (!IsWhitespace(t[0]) && !IsWhitespace(t[|t| - 1]))
    ensures Trim(w1 + t + w2) == t
  {
    if t == [] {
      assert w1 + t + w2 == (w1 + w2) + [];
      assert AllWhitespace(w1 + w2) by {
        forall i | 0 <= i < |w1 + w2| ensures IsWhitespace((w1 + w2)[i]) {
          if i >= |w1| {
            assert (w1 + w2)[i] == w2[i - |w1|];
          }
        }
      }
      TrimStartSkipsWhitespace(w1 + w2, []);
    } else {
      assert w1 + t + w2 == w1 + (t + w2);
      TrimStartSkipsWhitespace(w1, t + w2);
      TrimEndSkipsWhitespace(t, w2);
    }
  }

  /** Text with white space around it, in any case and with any accents,
      normalises character by character: white space at the ends goes,
      capitals become lower case and accented letters their base letters. */
  lemma NormalisePadded(w1: string, s: string, w2: string)
    requires AllWhitespace(w1) && AllWhitespace(w2)
    requires s == [] || (!IsWhitespace(s[0]) && !IsWhitespace(s[|s| - 1]))
    ensures Normalise(w1 + s + w2) == Fold(s)
  {
    var l := Lower(s);
    LowerPadded(w1, s, w2);
    LowerEnds(s);
    TrimAround(w1, l, w2);
    FoldsCore(s);
  }

  /** White space has no capital, so only the text between is lowered. */
  lemma LowerPadded(w1: string, s: string, w2: string)
    requires AllWhitespace(w1) && AllWhitespace(w2)
    ensures Lower(w1 + s + w2) == w1 + Lower(s) + w2
  {
    LowerAppend(w1, s);
    LowerAppend(w1 + s, w2);
    assert NoCapital(w1) && NoCapital(w2);
  }

  /** Lower-casing neither adds nor removes white space at the ends. */
  lemma LowerEnds(s: string)
    requires s == [] || (!IsWhitespace(s[0]) && !IsWhitespace(s[|s| - 1]))
    ensures var l := Lower(s); l == [] || (!IsWhitespace(l[0]) && !IsWhitespace(l[|l| - 1]))
  {
  }

  /** One character that is not white space normalises to `FoldChar`. */
  lemma NormaliseChar(c: char)
    requires !IsWhitespace(c)
    ensures Normalise([c]) == FoldChar(c)
  {
    assert [c] == [] + [c] + [];
    NormalisePadded([], [c], []);
    assert Fold([c]) == FoldChar(c) + Fold([]);
  }

  /** An accented Latin-1 letter, capital or not, normalises to its plain
      lower-case base letter. */
  lemma AccentedLetterFolds(c: char)
    requires |DecomposeChar(c)| == 2
    ensures Normalise([c]) == Normalise([LowerChar(c)]) == [LatinLetter(LowerChar(c) as int)[0]]
  {
    var lc := LowerChar(c);
    LowerAccented(c);
    NormaliseChar(c);
    NormaliseChar(lc);
  }

  /** The lower-case form of an accented letter is an accented letter
      that lower-casing fixes. */
  lemma LowerAccented(c: char)
    requires |DecomposeChar(c)| == 2
    ensures !IsWhitespace(c) && !IsWhitespace(LowerChar(c))
    ensures |DecomposeChar(LowerChar(c))| == 2 && LowerChar(LowerChar(c)) == LowerChar(c)
  {
  }

  /** " JOSE " and "José" share the normal form "jose". */
  lemma JoseExample(upper: string, accented: string)
    requires upper == " JOSE " && accented == "Jos\U{00E9}"
    ensures Normalise(upper) == Normalise(accented) == "jose"
  {
    UpperJose(upper);
    AccentedJose(accented);
  }

  lemma UpperJose(t: string)
    requires t == " JOSE "
    ensures Normalise(t) == "jose"
  {
    var w, s := " ", "JOSE";
    assert t == w + s + w;
    NormalisePadded(w, s, w);
    JoseFolds();
  }

  lemma AccentedJose(t: string)
    requires t == "Jos\U{00E9}"
    ensures Normalise(t) == "jose"
  {
    assert t == [] + t + [];
    NormalisePadded([], t, []);
    JoseFolds();
  }

  lemma JoseFolds()
    ensures Fold("JOSE") == "jose" && Fold("Jos\U{00E9}") == "jose"
  {
    assert "JOSE"[1..] == "OSE" && "OSE"[1..] == "SE" && "SE"[1..] == "E" && "E"[1..] == [];
    assert "Jos\U{00E9}"[1..] == "os\U{00E9}" && "os\U{00E9}"[1..] == "s\U{00E9}" && "s\U{00E9}"[1..] == "\U{00E9}";
    assert |DecomposeChar('\U{00E9}')| == 2;
  }
}
