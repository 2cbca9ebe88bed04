/** The brand tokens `qwenpaw` and `copaw`, in any case, and the normal form of a line. */
module Brand {

  const QWENPAW := "qwenpaw"
  const COPAW := "copaw"
  const PLACEHOLDER := '\0'

  function Fold(c: char): char {
    if 'A' <= c <= 'Z' then (c as int + 32) as char else c
  }

  /** `s` starts with `word`, ignoring case. */
  predicate Starts(s: string, word: string) {
    |word| <= |s| && forall i :: 0 <= i < |word| ==> Fold(s[i]) == word[i]
  }

  /** Length of the brand token at the head of `s`; 0 when there is none. */
  function BrandLen(s: string): (n: nat)
    ensures n <= |s|
  {
    if Starts(s, QWENPAW) then 7 else if Starts(s, COPAW) then 5 else 0
  }

  predicate IsBrand(t: string) {
    t != "" && BrandLen(t) == |t|
  }

  /** BRAND_RE.search */
  predicate HasBrand(s: string) {
    s != "" && (BrandLen(s) > 0 || HasBrand(s[1..]))
  }

  /** BRAND_RE.sub(PLACEHOLDER, s) */
  function Normalize(s: string): (r: string)
    ensures s == "" <==> r == ""
  {
    if s == "" then ""
    else if BrandLen(s) > 0 then [PLACEHOLDER] + Normalize(s[BrandLen(s)..])
    else [s[0]] + Normalize(s[1..])
  }

  /** For each placeholder of the normal form, whether it stands for a token; if not, it was a
      NUL in the line. */
  function Marks(s: string): seq<bool> {
    if s == "" then []
    else if BrandLen(s) > 0 then [true] + Marks(s[BrandLen(s)..])
    else (if s[0] == PLACEHOLDER then [false] else []) + Marks(s[1..])
  }

  // ----- occurrences -----

  /** The letters of a brand word after its first one. */
  predicate Inner(c: char) {
    c != 'q' && c != 'c' && c != PLACEHOLDER
  }

  lemma BrandLetters()
    ensures |QWENPAW| == 7 && QWENPAW[0] == 'q' && forall k :: 0 < k < 7 ==> Inner(QWENPAW[k])
    ensures |COPAW| == 5 && COPAW[0] == 'c' && forall k :: 0 < k < 5 ==> Inner(COPAW[k])
  {
  }

  /** Two brand tokens of a line never overlap. */
  lemma NoOverlap(s: string, k: nat)
    requires 0 < k < BrandLen(s)
    ensures BrandLen(s[k..]) == 0
  {
    BrandLetters();
    assert s[k..][0] == s[k];
  }

  lemma {:induction false} LettersSurvive(t: string, v: string)
    requires Starts(Normalize(t), v)
    requires forall i :: 0 <= i < |v| ==> v[i] != PLACEHOLDER
    ensures Starts(t, v)
  {
    if v == "" {
    } else {
      assert Fold(Normalize(t)[0]) == v[0];
      assert BrandLen(t) == 0;
      assert Normalize(t)[1..] == Normalize(t[1..]);
      assert Starts(Normalize(t[1..]), v[1..]) by {
        forall i | 0 <= i < |v[1..]|
          ensures Fold(Normalize(t[1..])[i]) == v[1..][i]
        {
          assert Normalize(t)[i + 1] == Normalize(t[1..])[i];
        }
      }
      LettersSurvive(t[1..], v[1..]);
      forall i | 0 <= i < |v|
        ensures Fold(t[i]) == v[i]
      {
        if i > 0 { assert t[i] == t[1..][i - 1] && v[i] == v[1..][i - 1]; }
      }
    }
  }

  /** A normal form holds no brand token. */
  lemma {:induction false} NoBrandLeft(s: string)
    ensures !HasBrand(Normalize(s))
  {
    if s == "" {
    } else {
      BrandLetters();
      if Starts(Normalize(s), QWENPAW) { LettersSurvive(s, QWENPAW); }
      if Starts(Normalize(s), COPAW) { LettersSurvive(s, COPAW); }
      assert BrandLen(Normalize(s)) == 0;
      var rest := if BrandLen(s) > 0 then s[BrandLen(s)..] else s[1..];
      NoBrandLeft(rest);
      assert Normalize(s)[1..] == Normalize(rest);
    }
  }

  /** Exactly the lines without a brand token are their own normal form. */
  lemma {:induction false} FixedIffNoBrand(s: string)
    ensures Normalize(s) == s <==> !HasBrand(s)
    ensures |Normalize(s)| <= |s|
  {
    if s == "" {
    } else {
      var n := BrandLen(s);
      if n > 0 {
        FixedIffNoBrand(s[n..]);
      } else {
        FixedIffNoBrand(s[1..]);
        assert s == [s[0]] + s[1..];
        assert Normalize(s)[1..] == Normalize(s[1..]);
      }
    }
  }

  lemma Idempotent(s: string)
    ensures Normalize(Normalize(s)) == Normalize(s)
  {
    NoBrandLeft(s);
    FixedIffNoBrand(Normalize(s));
  }

  // ----- the two words, in any case -----

  /** The same character, or the two cases of a letter. */
  ghost predicate SameButCase(c: char, d: char) {
    || c == d
    || ('a' <= c <= 'z' && d as int == c as int - 'a' as int + 'A' as int)
    || ('a' <= d <= 'z' && c as int == d as int - 'a' as int + 'A' as int)
  }

  ghost predicate SameLetters(s: string, t: string) {
    |s| == |t| && forall i :: 0 <= i < |s| ==> SameButCase(s[i], t[i])
  }

  lemma FoldCase(c: char, d: char)
    ensures Fold(c) == Fold(d) <==> SameButCase(c, d)
  {
  }

  lemma StartsExact(s: string, word: string)
    requires forall i :: 0 <= i < |word| ==> 'a' <= word[i] <= 'z'
    ensures Starts(s, word) <==> |word| <= |s| && SameLetters(s[..|word|], word)
  {
    if |word| <= |s| {
      forall i | 0 <= i < |word|
        ensures Fold(s[i]) == word[i] <==> SameButCase(s[..|word|][i], word[i])
      {
        FoldCase(s[i], word[i]);
      }
    }
  }

  lemma LowerCase()
    ensures forall i :: 0 <= i < |QWENPAW| ==> 'a' <= QWENPAW[i] <= 'z'
    ensures forall i :: 0 <= i < |COPAW| ==> 'a' <= COPAW[i] <= 'z'
  {
  }

  /** A token is one of the two words, each letter in either case. */
  lemma TokenExact(t: string)
    ensures IsBrand(t) <==> SameLetters(t, "qwenpaw") || SameLetters(t, "copaw")
  {
    LowerCase();
    StartsExact(t, QWENPAW);
    StartsExact(t, COPAW);
    assert t[..|t|] == t;
  }

  ghost predicate HoldsToken(s: string, i: nat, n: nat) {
    i + n <= |s| && IsBrand(s[i..i + n])
  }

  lemma HeadToken(s: string, n: nat)
    requires n <= |s| && IsBrand(s[..n])
    ensures BrandLen(s) == n
  {
    BrandLetters();
    assert forall i :: 0 <= i < n ==> s[..n][i] == s[i];
  }

  lemma TokenOfHead(s: string)
    requires BrandLen(s) > 0
    ensures IsBrand(s[..BrandLen(s)])
  {
    var n := BrandLen(s);
    assert forall i :: 0 <= i < n ==> s[..n][i] == s[i];
    BrandLetters();
  }

  lemma {:induction false} TokenFound(s: string, i: nat, n: nat)
    requires HoldsToken(s, i, n)
    ensures HasBrand(s)
  {
    if i == 0 {
      assert s[0..n] == s[..n];
      HeadToken(s, n);
    } else {
      assert s[1..][i - 1..i - 1 + n] == s[i..i + n];
      TokenFound(s[1..], i - 1, n);
    }
  }

  lemma {:induction false} FindToken(s: string) returns (i: nat, n: nat)
    requires HasBrand(s)
    ensures HoldsToken(s, i, n)
  {
    if BrandLen(s) > 0 {
      TokenOfHead(s);
      i, n := 0, BrandLen(s);
      assert s[0..n] == s[..n];
    } else {
      i, n := FindToken(s[1..]);
      assert s[1..][i..i + n] == s[i + 1..i + 1 + n];
      i := i + 1;
    }
  }

  /** A line is branded exactly when a token stands somewhere in it. */
  lemma HasBrandExact(s: string)
    ensures HasBrand(s) <==> exists i: nat, n: nat :: HoldsToken(s, i, n)
  {
    if HasBrand(s) {
      var i, n := FindToken(s);
    } else if exists i: nat, n: nat :: HoldsToken(s, i, n) {
      var i: nat, n: nat :| HoldsToken(s, i, n);
      TokenFound(s, i, n);
    }
  }

  lemma SameStarts(s: string, t: string, word: string)
    requires SameLetters(s, t)
    ensures Starts(s, word) == Starts(t, word)
  {
    forall i | 0 <= i < |s|
      ensures Fold(s[i]) == Fold(t[i])
    {
      FoldCase(s[i], t[i]);
    }
  }

  /** The case of letters changes neither whether a line is branded nor, up to case, its normal
      form. */
  lemma {:induction false} CaseDoesNotMatter(s: string, t: string)
    requires SameLetters(s, t)
    ensures HasBrand(s) == HasBrand(t) && BrandLen(s) == BrandLen(t)
    ensures SameLetters(Normalize(s), Normalize(t))
  {
    SameStarts(s, t, QWENPAW);
    SameStarts(s, t, COPAW);
    if s == "" {
    } else {
      assert SameLetters(s[1..], t[1..]);
      CaseDoesNotMatter(s[1..], t[1..]);
      var n := BrandLen(s);
      if n > 0 {
        assert SameLetters(s[n..], t[n..]);
        CaseDoesNotMatter(s[n..], t[n..]);
      }
    }
  }

  // ----- "a brand rename and nothing else" -----

  /** One piece of two aligned lines: a common character, or a token spelled `left` in one
      line and `right` in the other. */
  datatype Piece = Plain(c: char) | Token(left: string, right: string)

  function LeftText(p: Piece): string {
    match p case Plain(c) => [c] case Token(l, _) => l
  }

  function RightText(p: Piece): string {
    match p case Plain(c) => [c] case Token(_, r) => r
  }

  function Left(ps: seq<Piece>): string {
    if ps == [] then "" else LeftText(ps[0]) + Left(ps[1..])
  }

  function Right(ps: seq<Piece>): string {
    if ps == [] then "" else RightText(ps[0]) + Right(ps[1..])
  }

  predicate Respelled(t: string) {
    IsBrand(t) || t == [PLACEHOLDER]
  }

  ghost predicate Aligned(ps: seq<Piece>) {
    forall i :: 0 <= i < |ps| && ps[i].Token? ==> Respelled(ps[i].left) && Respelled(ps[i].right)
  }

  ghost predicate BrandAligned(ps: seq<Piece>) {
    forall i :: 0 <= i < |ps| && ps[i].Token? ==> IsBrand(ps[i].left) && IsBrand(ps[i].right)
  }

  lemma HeadOff(s: string, head: string, rest: string, word: string)
    requires s == head + rest && |head| == 1 && word != "" && Starts(s, word)
    ensures Fold(head[0]) == word[0] && Starts(rest, word[1..])
  {
    assert forall i :: 0 <= i < |word| - 1 ==> rest[i] == s[i + 1];
  }

  lemma HeadOn(s: string, head: string, rest: string, word: string)
    requires s == head + rest && |head| == 1 && word != ""
    requires Fold(head[0]) == word[0] && Starts(rest, word[1..])
    ensures Starts(s, word)
  {
    assert forall i :: 0 < i < |word| ==> s[i] == rest[i - 1] && word[i] == word[1..][i - 1];
  }

  lemma PlainSides(ps: seq<Piece>, n: nat)
    requires ps != [] && ps[0].Plain? && n < |ps|
    ensures Left(ps) == [ps[0].c] + Left(ps[1..]) && Right(ps) == [ps[0].c] + Right(ps[1..])
    ensures ps[n + 1..] == ps[1..][n..]
  {
  }

  /** The inside of a brand token is made of common characters only. */
  lemma {:induction false} PlainRun(ps: seq<Piece>, v: string)
    requires Aligned(ps) && Starts(Left(ps), v)
    requires forall i :: 0 <= i < |v| ==> Inner(v[i])
    ensures |v| <= |ps| && Starts(Right(ps), v)
    ensures Left(ps)[|v|..] == Left(ps[|v|..]) && Right(ps)[|v|..] == Right(ps[|v|..])
    decreases |v|, 1
  {
    if v == "" {
    } else {
      assert Fold(Left(ps)[0]) == v[0];
      NotAToken(ps);
      PlainHead(ps, v);
    }
  }

  /** A token starts with a `q`, a `c` or the placeholder. */
  lemma NotAToken(ps: seq<Piece>)
    requires Aligned(ps) && Left(ps) != "" && Inner(Fold(Left(ps)[0]))
    ensures ps[0].Plain?
  {
    BrandLetters();
  }

  /** A word whose letters after the first are inner ones starts with common characters. */
  lemma {:induction false} PlainHead(ps: seq<Piece>, word: string)
    requires Aligned(ps) && ps != [] && ps[0].Plain?
    requires word != "" && forall i :: 0 < i < |word| ==> Inner(word[i])
    requires Starts(Left(ps), word)
    ensures Starts(Right(ps), word) && |word| <= |ps|
    ensures Left(ps)[|word|..] == Left(ps[|word|..]) && Right(ps)[|word|..] == Right(ps[|word|..])
    decreases |word|, 0
  {
    var rest, v := ps[1..], word[1..];
    PlainSides(ps, 0);
    HeadOff(Left(ps), [ps[0].c], Left(rest), word);
    PlainRun(rest, v);
    HeadOn(Right(ps), [ps[0].c], Right(rest), word);
    assert ps[|word|..] == rest[|v|..];
    assert Left(ps)[|word|..] == Left(rest)[|v|..] && Right(ps)[|word|..] == Right(rest)[|v|..];
  }

  function Swap(ps: seq<Piece>): (r: seq<Piece>)
    ensures |r| == |ps|
  {
    if ps == [] then []
    else [match ps[0] case Plain(c) => Plain(c) case Token(l, r) => Token(r, l)] + Swap(ps[1..])
  }

  lemma {:induction false} SwapSides(ps: seq<Piece>)
    ensures Left(Swap(ps)) == Right(ps) && Right(Swap(ps)) == Left(ps)
    ensures Aligned(ps) ==> Aligned(Swap(ps))
    ensures forall k :: 0 <= k <= |ps| ==> Swap(ps)[k..] == Swap(ps[k..])
  {
    if ps == [] {
    } else {
      SwapSides(ps[1..]);
      assert Swap(ps)[1..] == Swap(ps[1..]);
      forall k | 0 <= k <= |ps|
        ensures Swap(ps)[k..] == Swap(ps[k..])
      {
        if k > 0 {
          assert Swap(ps)[k..] == Swap(ps[1..])[k - 1..];
          assert ps[k..] == ps[1..][k - 1..];
        } else {
          assert ps[0..] == ps && Swap(ps)[0..] == Swap(ps);
        }
      }
      if Aligned(ps) {
        assert Aligned(ps[1..]);
      }
    }
  }

  lemma TokenAtHead(t: string, rest: string)
    requires Respelled(t)
    ensures Normalize(t + rest) == [PLACEHOLDER] + Normalize(rest)
    ensures Marks(t + rest) == [IsBrand(t)] + Marks(rest)
  {
    if IsBrand(t) {
      assert forall i :: 0 <= i < |t| ==> (t + rest)[i] == t[i];
      BrandLetters();
      assert BrandLen(t + rest) == |t|;
      assert (t + rest)[|t|..] == rest;
    } else {
      assert (t + rest)[0] == PLACEHOLDER;
      assert (t + rest)[1..] == rest;
    }
  }

  lemma SameStart(ps: seq<Piece>, word: string)
    requires Aligned(ps) && ps != [] && ps[0].Plain?
    requires word != "" && forall i :: 0 < i < |word| ==> Inner(word[i])
    ensures Starts(Left(ps), word) <==> Starts(Right(ps), word)
  {
    SwapSides(ps);
    if Starts(Left(ps), word) { PlainHead(ps, word); }
    if Starts(Right(ps), word) { PlainHead(Swap(ps), word); }
  }

  /** Behind a common first character, both lines start with a token of one length or none. */
  lemma {:induction false} SameHead(ps: seq<Piece>)
    requires Aligned(ps) && ps != [] && ps[0].Plain?
    ensures Left(ps) != "" && Right(ps) != "" && Left(ps)[0] == Right(ps)[0]
    ensures BrandLen(Left(ps)) == BrandLen(Right(ps)) <= |ps|
    ensures var n := HeadLen(Left(ps));
            n <= |ps| && Left(ps)[n..] == Left(ps[n..]) && Right(ps)[n..] == Right(ps[n..])
  {
    PlainSides(ps, 0);
    BrandLetters();
    SameStart(ps, QWENPAW);
    SameStart(ps, COPAW);
    if Starts(Left(ps), QWENPAW) {
      PlainHead(ps, QWENPAW);
    } else if Starts(Left(ps), COPAW) {
      PlainHead(ps, COPAW);
    } else {
      assert Left(ps)[1..] == Left(ps[1..]) && Right(ps)[1..] == Right(ps[1..]);
    }
  }

  /** Respelling tokens keeps the normal form. */
  lemma {:induction false} AlignedSameNormal(ps: seq<Piece>)
    requires Aligned(ps)
    ensures Normalize(Left(ps)) == Normalize(Right(ps))
    decreases |ps|
  {
    if ps == [] {
    } else {
      match ps[0]
      case Token(l, r) =>
        TokenAtHead(l, Left(ps[1..]));
        TokenAtHead(r, Right(ps[1..]));
        AlignedSameNormal(ps[1..]);
      case Plain(c) =>
        SameHead(ps);
        AlignedSameNormal(ps[HeadLen(Left(ps))..]);
    }
  }

  /** Respelling brand tokens by brand tokens keeps the marks. */
  lemma {:induction false} AlignedSameMarks(ps: seq<Piece>)
    requires BrandAligned(ps)
    ensures Marks(Left(ps)) == Marks(Right(ps))
    decreases |ps|
  {
    if ps == [] {
    } else {
      match ps[0]
      case Token(l, r) =>
        TokenAtHead(l, Left(ps[1..]));
        TokenAtHead(r, Right(ps[1..]));
        AlignedSameMarks(ps[1..]);
      case Plain(c) =>
        SameHead(ps);
        MarksHead(Left(ps));
        MarksHead(Right(ps));
        AlignedSameMarks(ps[HeadLen(Left(ps))..]);
    }
  }

  /** What the normal form consumes at the head of a line. */
  function HeadLen(s: string): (n: nat)
    requires s != ""
    ensures 1 <= n <= |s|
  {
    if BrandLen(s) > 0 then BrandLen(s) else 1
  }

  lemma HeadSplit(s: string)
    requires s != ""
    ensures Normalize(s) == [if BrandLen(s) > 0 then PLACEHOLDER else s[0]] + Normalize(s[HeadLen(s)..])
    ensures BrandLen(s) > 0 ==> IsBrand(s[..HeadLen(s)])
  {
    var n := BrandLen(s);
    if n > 0 {
      assert forall i :: 0 <= i < n ==> s[..n][i] == s[i];
      BrandLetters();
    }
  }

  function HeadMark(s: string): seq<bool>
    requires s != ""
  {
    if BrandLen(s) > 0 then [true] else if s[0] == PLACEHOLDER then [false] else []
  }

  lemma MarksHead(s: string)
    requires s != ""
    ensures Marks(s) == HeadMark(s) + Marks(s[HeadLen(s)..])
  {
  }

  /** The piece that aligns the heads of two lines with equal normal forms. */
  function HeadPiece(a: string, b: string): Piece
    requires a != "" && b != ""
  {
    if BrandLen(a) > 0 || BrandLen(b) > 0 then Token(a[..HeadLen(a)], b[..HeadLen(b)]) else Plain(a[0])
  }

  lemma HeadsAlign(a: string, b: string)
    requires a != "" && b != "" && Normalize(a) == Normalize(b)
    ensures Normalize(a[HeadLen(a)..]) == Normalize(b[HeadLen(b)..])
    ensures var p := HeadPiece(a, b);
            && (p.Token? ==> Respelled(p.left) && Respelled(p.right))
            && LeftText(p) == a[..HeadLen(a)] && RightText(p) == b[..HeadLen(b)]
  {
    HeadSplit(a);
    HeadSplit(b);
    assert Normalize(a[HeadLen(a)..]) == Normalize(a)[1..];
    assert Normalize(b[HeadLen(b)..]) == Normalize(b)[1..];
    assert Normalize(a)[0] == Normalize(b)[0];
  }

  lemma {:induction false} MarksAlign(a: string, b: string)
    requires a != "" && b != "" && Normalize(a) == Normalize(b) && Marks(a) == Marks(b)
    ensures Marks(a[HeadLen(a)..]) == Marks(b[HeadLen(b)..])
    ensures HeadPiece(a, b).Token? ==> IsBrand(HeadPiece(a, b).left) && IsBrand(HeadPiece(a, b).right)
  {
    HeadSplit(a);
    HeadSplit(b);
    MarksHead(a);
    MarksHead(b);
    assert Normalize(a)[0] == Normalize(b)[0];
    assert |HeadMark(a)| == |HeadMark(b)|;
    assert Marks(a[HeadLen(a)..]) == Marks(a)[|HeadMark(a)|..];
    assert Marks(b[HeadLen(b)..]) == Marks(b)[|HeadMark(b)|..];
    assert HeadMark(a) == Marks(a)[..|HeadMark(a)|] && HeadMark(b) == Marks(b)[..|HeadMark(b)|];
  }

  lemma AlignedCons(p: Piece, ps: seq<Piece>)
    requires Aligned(ps) && (p.Token? ==> Respelled(p.left) && Respelled(p.right))
    ensures Aligned([p] + ps)
    ensures Left([p] + ps) == LeftText(p) + Left(ps) && Right([p] + ps) == RightText(p) + Right(ps)
  {
    assert ([p] + ps)[1..] == ps;
  }

  lemma {:induction false} HeadsBack(a: string, b: string, rest: seq<Piece>)
    requires a != "" && b != "" && Normalize(a) == Normalize(b)
    requires Aligned(rest) && Left(rest) == a[HeadLen(a)..] && Right(rest) == b[HeadLen(b)..]
    ensures var ps := [HeadPiece(a, b)] + rest; Aligned(ps) && Left(ps) == a && Right(ps) == b
  {
    HeadsAlign(a, b);
    AlignedCons(HeadPiece(a, b), rest);
    Rejoin(a, HeadLen(a));
    Rejoin(b, HeadLen(b));
  }

  lemma Rejoin(s: string, n: nat)
    requires n <= |s|
    ensures s[..n] + s[n..] == s
  {
  }

  /** The alignment that equal normal forms give. */
  ghost function AlignmentOf(a: string, b: string): seq<Piece>
    requires Normalize(a) == Normalize(b)
    decreases |a|
  {
    if a == "" then []
    else
      HeadsAlign(a, b);
      [HeadPiece(a, b)] + AlignmentOf(a[HeadLen(a)..], b[HeadLen(b)..])
  }

  lemma {:induction false} SameNormalAligned(a: string, b: string)
    requires Normalize(a) == Normalize(b)
    ensures Aligned(AlignmentOf(a, b)) && Left(AlignmentOf(a, b)) == a && Right(AlignmentOf(a, b)) == b
    decreases |a|
  {
    if a == "" {
    } else {
      HeadsAlign(a, b);
      var m, n := HeadLen(a), HeadLen(b);
      SameNormalAligned(a[m..], b[n..]);
      HeadsBack(a, b, AlignmentOf(a[m..], b[n..]));
    }
  }

  /** When the marks agree too, the tokens are brand tokens on both sides. */
  lemma {:induction false} SameMarksAligned(a: string, b: string)
    requires Normalize(a) == Normalize(b) && Marks(a) == Marks(b)
    ensures BrandAligned(AlignmentOf(a, b))
    decreases |a|
  {
    if a == "" {
    } else {
      HeadsAlign(a, b);
      MarksAlign(a, b);
      SameMarksAligned(a[HeadLen(a)..], b[HeadLen(b)..]);
    }
  }

  /** Two lines have one normal form exactly when they agree up to respelled tokens, a
      placeholder already in a line counting as a token. */
  lemma {:induction false} NormalFormExact(a: string, b: string)
    ensures Normalize(a) == Normalize(b) <==> exists ps :: Aligned(ps) && Left(ps) == a && Right(ps) == b
  {
    if Normalize(a) == Normalize(b) {
      SameNormalAligned(a, b);
    } else if exists ps :: Aligned(ps) && Left(ps) == a && Right(ps) == b {
      var ps :| Aligned(ps) && Left(ps) == a && Right(ps) == b;
      AlignedSameNormal(ps);
    }
  }

  /** Two lines are brand respellings of each other exactly when they have one normal form and
      its placeholders stand for tokens in the same places. */
  lemma {:induction false} RenameExact(a: string, b: string)
    ensures Respelling(a, b) <==> Normalize(a) == Normalize(b) && Marks(a) == Marks(b)
  {
    if Respelling(a, b) {
      var ps :| BrandAligned(ps) && Left(ps) == a && Right(ps) == b;
      AlignedSameNormal(ps);
      AlignedSameMarks(ps);
    } else if Normalize(a) == Normalize(b) && Marks(a) == Marks(b) {
      SameNormalAligned(a, b);
      SameMarksAligned(a, b);
    }
  }

  /** A brand rename and nothing else. */
  ghost predicate Respelling(a: string, b: string) {
    exists ps :: BrandAligned(ps) && Left(ps) == a && Right(ps) == b
  }

  function Placeholders(s: string): seq<bool> {
    if s == "" then [] else (if s[0] == PLACEHOLDER then [true] else []) + Placeholders(s[1..])
  }

  /** Without a NUL, every placeholder of the normal form stands for a token. */
  lemma {:induction false} AllTokens(s: string)
    requires PLACEHOLDER !in s
    ensures Marks(s) == Placeholders(Normalize(s))
  {
    if s == "" {
    } else {
      HeadSplit(s);
      var rest := s[HeadLen(s)..];
      assert forall c :: c in rest ==> c in s;
      AllTokens(rest);
      assert Normalize(s)[1..] == Normalize(rest);
    }
  }

  /** On lines without a NUL, the normal form alone decides. */
  lemma {:induction false} RenameAndNothingElse(a: string, b: string)
    requires PLACEHOLDER !in a && PLACEHOLDER !in b
    ensures Normalize(a) == Normalize(b) <==> Respelling(a, b)
  {
    AllTokens(a);
    AllTokens(b);
    RenameExact(a, b);
  }
}
