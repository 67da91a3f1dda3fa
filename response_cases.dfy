/** What `parse_response` does on the kinds of reply its callers meet: replies
    the pattern never matches, a text followed by one tag, several tags in a
    row, the reply from its doc comment, and a reply that a second pass would
    change. */
module ResponseCases {
  import opened Wrappers
  import opened PyStr
  import opened ImgPattern
  import opened ResponseParser

  /** Every character of `t` kept as it is: the k-th piece is the k-th
      character. */
  function CharsOf(t: string): (ps: seq<Piece>)
    ensures |ps| == |t|
    ensures forall k :: 0 <= k < |t| ==> ps[k] == Char(t[k])
  {
    if t == [] then []
    else
      var rest := CharsOf(t[1..]);
      assert forall k :: 0 < k < |t| ==> t[k] == t[1..][k - 1];
      [Char(t[0])] + rest
  }

  lemma {:induction false} KeptConcat(xs: seq<Piece>, ys: seq<Piece>)
    ensures Kept(xs + ys) == Kept(xs) + Kept(ys)
  {
    if xs == [] {
      assert xs + ys == ys;
    } else {
      assert (xs + ys)[0] == xs[0];
      assert (xs + ys)[1..] == xs[1..] + ys;
      KeptConcat(xs[1..], ys);
    }
  }

  lemma {:induction false} SrcsConcat(xs: seq<Piece>, ys: seq<Piece>)
    ensures Srcs(xs + ys) == Srcs(xs) + Srcs(ys)
  {
    if xs == [] {
      assert xs + ys == ys;
    } else {
      assert (xs + ys)[0] == xs[0];
      assert (xs + ys)[1..] == xs[1..] + ys;
      SrcsConcat(xs[1..], ys);
    }
  }

  lemma {:induction false} CharsOfKept(t: string)
    ensures Kept(CharsOf(t)) == t && Srcs(CharsOf(t)) == []
  {
    if t != [] {
      CharsOfKept(t[1..]);
      assert CharsOf(t)[1..] == CharsOf(t[1..]);
      assert t == [t[0]] + t[1..];
    }
  }

  /** A run of indices where `f` finds no match tiles as kept characters. */
  lemma {:induction false} TilesChars(s: string, f: Matcher, i: nat, n: nat, qs: seq<Piece>)
    requires i + n <= |s|
    requires forall j: nat :: i <= j < i + n ==> f(j).None?
    requires Tiles(s, f, i + n, qs)
    ensures Tiles(s, f, i, CharsOf(s[i..i + n]) + qs)
    decreases n
  {
    if n > 0 {
      TilesChars(s, f, i + 1, n - 1, qs);
      var ps := CharsOf(s[i..i + n]) + qs;
      assert s[i..i + n][1..] == s[i + 1..i + n];
      assert ps[0] == Char(s[i]);
      assert ps[1..] == CharsOf(s[i + 1..i + 1 + (n - 1)]) + qs;
    } else {
      assert CharsOf(s[i..i + n]) + qs == qs;
    }
  }

  /** The scan of a reply is any tiling of it. */
  lemma {:induction false} ScanOfTiling(s: string, ps: seq<Piece>)
    requires Tiles(s, PatternOn(s), 0, ps)
    ensures Scan(s) == ps
  {
    PatternWellFormed(s);
    TilesUnique(s, PatternOn(s), 0, ps);
  }

  /** What `parse_response` returns, once the scan and what it keeps and
      captures are known. */
  lemma {:induction false} ParseFromScan(s: string, ps: seq<Piece>, text: string, paths: seq<string>)
    requires Scan(s) == ps && Kept(ps) == text && Srcs(ps) == paths
    ensures ParseResponse(s) == Parsed(Strip(text), paths)
  {
  }

  /** Kept characters, then one tag. */
  lemma {:induction false} CharsThenImage(t: string, tag: string, x: string)
    ensures Kept(CharsOf(t) + [Image(tag, x)]) == t
    ensures Srcs(CharsOf(t) + [Image(tag, x)]) == [x]
  {
    var img := Image(tag, x);
    KeptConcat(CharsOf(t), [img]);
    SrcsConcat(CharsOf(t), [img]);
    CharsOfKept(t);
    assert [img][1..] == [];
  }

  /** No match can start at a character other than `<`. */
  lemma {:induction false} NoTagStart(s: string, j: nat)
    requires j < |s| && s[j] != '<'
    ensures MatchAt(s, j).None?
  {
    if j + 4 <= |s| {
      assert s[j..j + 4][0] == s[j];
    }
  }

  // Replies where the pattern matches nowhere: no paths, and the text is
  // the whole reply, stripped.

  /** Without `<img` (say, only `<IMG`), nothing matches. */
  lemma {:induction false} NoImgParse(s: string)
    requires forall j: nat :: j < |s| ==> !ImgAt(s, j)
    ensures ParseResponse(s) == Parsed(Strip(s), [])
  {
    NoMatchParse(s);
  }

  /** Where every `<img` is followed by something other than whitespace
      (say, `<imgsrc=`), nothing matches. */
  lemma {:induction false} NoSpaceAfterImgParse(s: string)
    requires forall j: nat :: ImgAt(s, j) ==> j + 4 == |s| || !IsSpace(s[j + 4])
    ensures ParseResponse(s) == Parsed(Strip(s), [])
  {
    NoMatchParse(s);
  }

  /** Without `src="` (say, with a single-quoted `src='...'`), nothing
      matches. */
  lemma {:induction false} NoSrcQuoteParse(s: string)
    requires forall j: nat :: !SrcAt(s, j)
    ensures ParseResponse(s) == Parsed(Strip(s), [])
  {
    forall i: nat | i < |s| ensures MatchAt(s, i).None? {
      MatchAtNeeds(s, i);
    }
    NoMatchParse(s);
  }

  /** Where every `src="` is at once closed (`src=""`) or ends the reply,
      nothing matches: the capture needs at least one character. */
  lemma {:induction false} EmptySrcParse(s: string)
    requires forall j: nat :: SrcAt(s, j) ==> j + 5 == |s| || s[j + 5] == '"'
    ensures ParseResponse(s) == Parsed(Strip(s), [])
  {
    forall i: nat | i < |s| ensures MatchAt(s, i).None? {
      MatchAtNeeds(s, i);
    }
    NoMatchParse(s);
  }

  /** Where no `>` follows any `src="`, nothing matches: the tag is never
      closed. */
  lemma {:induction false} NoCloseParse(s: string)
    requires forall j: nat, k: nat :: SrcAt(s, j) && j < k < |s| ==> s[k] != '>'
    ensures ParseResponse(s) == Parsed(Strip(s), [])
  {
    forall i: nat | i < |s| ensures MatchAt(s, i).None? {
      MatchAtNeeds(s, i);
    }
    NoMatchParse(s);
  }

  /** The plainest tag: `<img src="x"` then the attributes `r`, then `>`. */
  function Tag(x: string, r: string): (t: string)
    ensures |t| == 12 + |x| + |r|
  {
    "<img src=\"" + x + "\"" + r + ">"
  }

  lemma {:induction false} SliceOfSlice(s: string, a: nat, b: nat, c: nat, d: nat)
    requires a <= b <= |s| && c <= d <= b - a
    ensures s[a..b][c..d] == s[a + c..a + d]
  {
    assert forall k :: 0 <= k < d - c ==> s[a..b][c..d][k] == s[a + c + k];
  }

  /** The parts of a tag that begins at `i`. */
  lemma {:induction false} TagHead(s: string, i: nat, x: string, r: string)
    requires SimpleTagAt(s, i, x, r)
    ensures ImgAt(s, i) && s[i + 4] == ' ' && SrcAt(s, i + 5)
  {
    var u := s[i..i + |Tag(x, r)|];
    assert u[..10] == "<img src=\"";
    forall j | 0 <= j < 10 ensures s[i + j] == "<img src=\""[j] {
      assert s[i + j] == u[j] == u[..10][j];
    }
  }

  lemma {:induction false} TagBody(s: string, i: nat, x: string, r: string)
    requires SimpleTagAt(s, i, x, r)
    ensures s[i + 10..i + 10 + |x|] == x
    ensures s[i + 10 + |x|] == '"'
    ensures s[i + 11 + |x|..i + 11 + |x| + |r|] == r
    ensures s[i + 11 + |x| + |r|] == '>'
  {
    var t := Tag(x, r);
    var u := s[i..i + |t|];
    assert u[10..10 + |x|] == x;
    assert u[10 + |x|] == '"';
    assert u[11 + |x|..11 + |x| + |r|] == r;
    assert u[11 + |x| + |r|] == '>';
    SliceOfSlice(s, i, i + |t|, 10, 10 + |x|);
    SliceOfSlice(s, i, i + |t|, 11 + |x|, 11 + |x| + |r|);
  }

  /** A tag the pattern takes whole: a non-empty value without `"` and
      attributes without `>`. */
  predicate SimpleTag(x: string, r: string) {
    x != [] && '"' !in x && '>' !in r
  }

  /** Such a tag begins at `i` of `s`. */
  predicate SimpleTagAt(s: string, i: nat, x: string, r: string) {
    SimpleTag(x, r) && i + |Tag(x, r)| <= |s| && s[i..i + |Tag(x, r)|] == Tag(x, r)
  }

  /** Where such a tag begins, the pattern matches exactly that tag and
      captures `x` (which may hold `>`). */
  lemma {:induction false} TagMatchAt(s: string, i: nat, x: string, r: string)
    requires SimpleTagAt(s, i, x, r)
    ensures MatchAt(s, i) == Some(Match(i + |Tag(x, r)|, x))
  {
    TagHead(s, i, x, r);
    TagBody(s, i, x, r);
    var e := i + 10 + |x|;
    var m := e + 1 + |r|;
    assert s[i + 4..i + 5] == [' '];
    assert Tail(s, i + 10, e, m);
    assert Instance(s, i, i + 5, i + 5, e, m);
    MatchAtLeftmost(s, i, i + 5, i + 5, e, m);
  }

  /** A piece the matcher dictates, followed by a tiling of the rest, is a
      tiling. */
  lemma {:induction false} TilesCons(s: string, f: Matcher, i: nat, p: Piece, j: nat, qs: seq<Piece>)
    requires ScannedAt(s, f, i, p) && j == i + Width(p) && Tiles(s, f, j, qs)
    ensures Tiles(s, f, i, [p] + qs)
  {
    assert ([p] + qs)[0] == p && ([p] + qs)[1..] == qs;
  }

  lemma {:induction false} TilesEnd(s: string, f: Matcher)
    ensures Tiles(s, f, |s|, [])
  {
  }

  /** The image pattern as the scan sees it, where a tag begins. */
  lemma {:induction false} PatternTagAt(s: string, i: nat, x: string, r: string)
    requires SimpleTagAt(s, i, x, r)
    ensures ScannedAt(s, PatternOn(s), i, Image(Tag(x, r), x))
  {
    TagMatchAt(s, i, x, r);
  }

  /** The image pattern as the scan sees it, on a run without `<`. */
  lemma {:induction false} PatternNoTag(s: string, i: nat, n: nat)
    requires i + n <= |s| && '<' !in s[i..i + n]
    ensures forall j: nat :: i <= j < i + n ==> PatternOn(s)(j).None?
  {
    forall j: nat | i <= j < i + n ensures PatternOn(s)(j).None? {
      assert s[j] == s[i..i + n][j - i];
      NoTagStart(s, j);
    }
  }

  /** A tag that ends the reply tiles as one piece. */
  lemma {:induction false} LastTagTiles(s: string, i: nat, x: string, r: string)
    requires SimpleTagAt(s, i, x, r) && i + |Tag(x, r)| == |s|
    ensures Tiles(s, PatternOn(s), i, [Image(Tag(x, r), x)])
  {
    PatternTagAt(s, i, x, r);
    TilesEnd(s, PatternOn(s));
    TilesCons(s, PatternOn(s), i, Image(Tag(x, r), x), |s|, []);
    assert [Image(Tag(x, r), x)] + [] == [Image(Tag(x, r), x)];
  }

  lemma {:induction false} TextThenTagTiles(t: string, x: string, r: string)
    requires '<' !in t && SimpleTag(x, r)
    ensures Tiles(t + Tag(x, r), PatternOn(t + Tag(x, r)), 0, CharsOf(t) + [Image(Tag(x, r), x)])
  {
    var s := t + Tag(x, r);
    assert s[|t|..|t| + |Tag(x, r)|] == Tag(x, r);
    LastTagTiles(s, |t|, x, r);
    assert s[0..|t|] == t;
    PatternNoTag(s, 0, |t|);
    TilesChars(s, PatternOn(s), 0, |t|, [Image(Tag(x, r), x)]);
  }

  lemma {:induction false} TextThenTagScan(t: string, x: string, r: string)
    requires '<' !in t && SimpleTag(x, r)
    ensures Scan(t + Tag(x, r)) == CharsOf(t) + [Image(Tag(x, r), x)]
  {
    TextThenTagTiles(t, x, r);
    ScanOfTiling(t + Tag(x, r), CharsOf(t) + [Image(Tag(x, r), x)]);
  }

  /** A text without `<` followed by one tag: the path is the tag's `src`,
      and the text is what precedes the tag, stripped. */
  lemma {:induction false} TextThenTagParse(t: string, x: string, r: string)
    requires '<' !in t && SimpleTag(x, r)
    ensures ParseResponse(t + Tag(x, r)) == Parsed(Strip(t), [x])
  {
    TextThenTagScan(t, x, r);
    CharsThenImage(t, Tag(x, r), x);
    ParseFromScan(t + Tag(x, r), CharsOf(t) + [Image(Tag(x, r), x)], t, [x]);
  }

  /** Two pieces the matcher dictates, one after the other, that end the
      reply tile it. */
  lemma {:induction false} TilesTwo(s: string, f: Matcher, p1: Piece, p2: Piece)
    requires ScannedAt(s, f, 0, p1) && ScannedAt(s, f, Width(p1), p2)
    requires Width(p1) + Width(p2) == |s|
    ensures Tiles(s, f, 0, [p1, p2])
  {
    TilesCons(s, f, Width(p1), p2, |s|, []);
    TilesCons(s, f, 0, p1, Width(p1), [p2]);
    assert [p1] + [p2] == [p1, p2];
  }

  lemma {:induction false} TwoTagsTiles(s: string, x1: string, r1: string, x2: string, r2: string)
    requires SimpleTagAt(s, 0, x1, r1) && SimpleTagAt(s, |Tag(x1, r1)|, x2, r2)
    requires |s| == |Tag(x1, r1)| + |Tag(x2, r2)|
    ensures Tiles(s, PatternOn(s), 0, [Image(Tag(x1, r1), x1), Image(Tag(x2, r2), x2)])
  {
    PatternTagAt(s, 0, x1, r1);
    PatternTagAt(s, |Tag(x1, r1)|, x2, r2);
    TilesTwo(s, PatternOn(s), Image(Tag(x1, r1), x1), Image(Tag(x2, r2), x2));
  }

  lemma {:induction false} TwoTagsScan(x1: string, r1: string, x2: string, r2: string)
    requires SimpleTag(x1, r1) && SimpleTag(x2, r2)
    ensures Scan(Tag(x1, r1) + Tag(x2, r2)) == [Image(Tag(x1, r1), x1), Image(Tag(x2, r2), x2)]
  {
    var s := Tag(x1, r1) + Tag(x2, r2);
    assert s[0..|Tag(x1, r1)|] == Tag(x1, r1);
    assert s[|Tag(x1, r1)|..|Tag(x1, r1)| + |Tag(x2, r2)|] == Tag(x2, r2);
    TwoTagsTiles(s, x1, r1, x2, r2);
    ScanOfTiling(s, [Image(Tag(x1, r1), x1), Image(Tag(x2, r2), x2)]);
  }

  lemma {:induction false} TwoImages(t1: string, x1: string, t2: string, x2: string)
    ensures Kept([Image(t1, x1), Image(t2, x2)]) == []
    ensures Srcs([Image(t1, x1), Image(t2, x2)]) == [x1, x2]
  {
    var i1, i2 := Image(t1, x1), Image(t2, x2);
    assert [i1, i2] == [i1] + [i2];
    KeptConcat([i1], [i2]);
    SrcsConcat([i1], [i2]);
    assert [i1][1..] == [] && [i2][1..] == [];
  }

  /** Two tags in a row: both paths, in the order the tags appear, and an
      empty text. */
  lemma {:induction false} TwoTagsParse(x1: string, r1: string, x2: string, r2: string)
    requires SimpleTag(x1, r1) && SimpleTag(x2, r2)
    ensures ParseResponse(Tag(x1, r1) + Tag(x2, r2)) == Parsed([], [x1, x2])
  {
    TwoTagsScan(x1, r1, x2, r2);
    TwoImages(Tag(x1, r1), x1, Tag(x2, r2), x2);
    ParseFromScan(Tag(x1, r1) + Tag(x2, r2), [Image(Tag(x1, r1), x1), Image(Tag(x2, r2), x2)], [], [x1, x2]);
    assert Strip([]) == [];
  }

  /** The paths come in order of appearance, not sorted. */
  lemma OrderOfAppearance()
    ensures ParseResponse("<img src=\"b.png\"><img src=\"a.png\">") == Parsed([], ["b.png", "a.png"])
  {
    assert "<img src=\"b.png\"><img src=\"a.png\">" == Tag("b.png", "") + Tag("a.png", "");
    TwoTagsParse("b.png", "", "a.png", "");
  }

  /** A `>` inside the quoted value belongs to the path. */
  lemma AngleInsidePath()
    ensures ParseResponse("<img src=\"a>b.png\">") == Parsed([], ["a>b.png"])
  {
    assert "<img src=\"a>b.png\">" == [] + Tag("a>b.png", "");
    TextThenTagParse([], "a>b.png", "");
    assert Strip([]) == [];
  }

  /** The reply from the doc comment of `parse_response`: a sentence, a
      newline, and the tag `<img src="./files/file-s4W0rog1pjneOAtWeq21lbDy.png" alt="Bitcoin Closing Price Chart">`. */
  const DocSentence := "ビットコインの終値のチャートを作成しました。以下の画像で確認できます。"
  const DocPath := "./files/file-s4W0rog1pjneOAtWeq21lbDy.png"
  const DocAttributes := " alt=\"Bitcoin Closing Price Chart\""

  lemma DocSentenceClean()
    ensures '<' !in DocSentence
  {
  }

  lemma DocSentenceEnds()
    ensures !IsSpace(DocSentence[0]) && !IsSpace(DocSentence[|DocSentence| - 1])
  {
  }

  lemma DocPathNoQuote()
    ensures '"' !in DocPath
  {
  }

  lemma DocTagSimple()
    ensures SimpleTag(DocPath, DocAttributes)
  {
    DocPathNoQuote();
  }

  lemma DocSentenceStrip()
    ensures Strip(DocSentence + "\n") == DocSentence
  {
    DocSentenceEnds();
    assert AllSpace("\n");
    StripTrailing(DocSentence, "\n");
    StripKeeps(DocSentence);
  }

  /** On that reply the text is the sentence alone and the one path is the
      tag's `src`. */
  lemma DocExample()
    ensures ParseResponse(DocSentence + "\n" + Tag(DocPath, DocAttributes)) == Parsed(DocSentence, [DocPath])
  {
    DocSentenceClean();
    assert '<' !in DocSentence + "\n";
    DocTagSimple();
    DocSentenceStrip();
    TextThenTagParse(DocSentence + "\n", DocPath, DocAttributes);
  }

  /** A run without `<` that ends the reply tiles as kept characters. */
  lemma {:induction false} TextTiles(s: string, i: nat, w: string)
    requires i + |w| == |s| && s[i..] == w && '<' !in w
    ensures Tiles(s, PatternOn(s), i, CharsOf(w))
  {
    assert s[i..i + |w|] == w;
    TilesEnd(s, PatternOn(s));
    PatternNoTag(s, i, |w|);
    TilesChars(s, PatternOn(s), i, |w|, []);
    assert CharsOf(w) + [] == CharsOf(w);
  }

  /** A tag followed by a run without `<` that ends the reply. */
  lemma {:induction false} TagThenTextTiles(s: string, i: nat, x: string, r: string, w: string)
    requires SimpleTagAt(s, i, x, r) && '<' !in w
    requires i + |Tag(x, r)| + |w| == |s| && s[i + |Tag(x, r)|..] == w
    ensures Tiles(s, PatternOn(s), i, [Image(Tag(x, r), x)] + CharsOf(w))
  {
    var j := i + |Tag(x, r)|;
    TextTiles(s, j, w);
    PatternTagAt(s, i, x, r);
    TilesCons(s, PatternOn(s), i, Image(Tag(x, r), x), j, CharsOf(w));
  }

  /** A reply made of a prefix `u` in which no match starts, one tag, and a
      run without `<`: the scan keeps `u`, takes the tag whole and keeps the
      run. */
  lemma {:induction false} PrefixTagTextScan(s: string, u: string, x: string, r: string, w: string)
    requires SimpleTagAt(s, |u|, x, r) && '<' !in w && s[0..|u|] == u
    requires |u| + |Tag(x, r)| + |w| == |s| && s[|u| + |Tag(x, r)|..] == w
    requires forall j: nat :: j < |u| ==> MatchAt(s, j).None?
    ensures Scan(s) == CharsOf(u) + ([Image(Tag(x, r), x)] + CharsOf(w))
  {
    TagThenTextTiles(s, |u|, x, r, w);
    forall j: nat | j < |u| ensures PatternOn(s)(j).None? {
      assert PatternOn(s)(j) == MatchAt(s, j);
    }
    TilesChars(s, PatternOn(s), 0, |u|, [Image(Tag(x, r), x)] + CharsOf(w));
    ScanOfTiling(s, CharsOf(u) + ([Image(Tag(x, r), x)] + CharsOf(w)));
  }

  /** A tag between two strings begins where the first one ends. */
  lemma {:induction false} TagBetween(u: string, x: string, r: string, w: string)
    requires SimpleTag(x, r)
    ensures var s := u + Tag(x, r) + w;
            s[0..|u|] == u && SimpleTagAt(s, |u|, x, r) && s[|u| + |Tag(x, r)|..] == w
  {
    var s := u + Tag(x, r) + w;
    assert s[|u|..|u| + |Tag(x, r)|] == Tag(x, r);
  }

  /** How `<im<img src="a">g src="b">` divides: `<im`, the inner tag, and a
      run without `<`. */
  lemma {:induction false} FirstPassParts(s: string)
    requires s == "<im<img src=\"a\">g src=\"b\">"
    ensures s == "<im" + Tag("a", "") + "g src=\"b\">"
    ensures s[..4] == "<im<"
  {
  }

  /** No match starts in a prefix `<im` followed by `<`. */
  lemma {:induction false} FirstPassHead(s: string)
    requires 4 <= |s| && s[..4] == "<im<"
    ensures forall j: nat :: j < 3 ==> MatchAt(s, j).None?
  {
    assert s[0..4][3] == s[..4][3];
    assert s[1] == s[..4][1] && s[2] == s[..4][2];
    NoTagStart(s, 1);
    NoTagStart(s, 2);
  }

  lemma {:induction false} PrefixTagTextPieces(u: string, tag: string, x: string, w: string)
    ensures Kept(CharsOf(u) + ([Image(tag, x)] + CharsOf(w))) == u + w
    ensures Srcs(CharsOf(u) + ([Image(tag, x)] + CharsOf(w))) == [x]
  {
    var img := Image(tag, x);
    var cu, cw := CharsOf(u), CharsOf(w);
    assert [img][1..] == [];
    assert Srcs([img]) == [x] + Srcs([]) == [x];
    assert Kept([img]) == [] + Kept([]) == [];
    CharsOfKept(w);
    KeptConcat([img], cw);
    SrcsConcat([img], cw);
    assert Kept([img] + cw) == w && Srcs([img] + cw) == [x];
    CharsOfKept(u);
    KeptConcat(cu, [img] + cw);
    SrcsConcat(cu, [img] + cw);
  }

  /** On such a reply, the text is `u` and the run joined, stripped, and the
      one path is the tag's `src`. */
  lemma {:induction false} PrefixTagTextParse(s: string, u: string, x: string, r: string, w: string)
    requires SimpleTagAt(s, |u|, x, r) && '<' !in w && s[0..|u|] == u
    requires |u| + |Tag(x, r)| + |w| == |s| && s[|u| + |Tag(x, r)|..] == w
    requires forall j: nat :: j < |u| ==> MatchAt(s, j).None?
    ensures ParseResponse(s) == Parsed(Strip(u + w), [x])
  {
    PrefixTagTextScan(s, u, x, r, w);
    PrefixTagTextPieces(u, Tag(x, r), x, w);
    ParseFromScan(s, CharsOf(u) + ([Image(Tag(x, r), x)] + CharsOf(w)), u + w, [x]);
  }

  lemma FirstPassText()
    ensures Strip("<im" + "g src=\"b\">") == "<img src=\"b\">"
  {
    assert "<im" + "g src=\"b\">" == "<img src=\"b\">";
    StripKeeps("<img src=\"b\">");
  }

  /** The first pass over `<im<img src="a">g src="b">` removes the inner tag,
      and its halves join into a new tag. */
  lemma FirstPass()
    ensures ParseResponse("<im<img src=\"a\">g src=\"b\">") == Parsed("<img src=\"b\">", ["a"])
  {
    var s := "<im<img src=\"a\">g src=\"b\">";
    FirstPassParts(s);
    TagBetween("<im", "a", "", "g src=\"b\">");
    FirstPassHead(s);
    PrefixTagTextParse(s, "<im", "a", "", "g src=\"b\">");
    FirstPassText();
  }

  lemma SecondPass()
    ensures ParseResponse("<img src=\"b\">") == Parsed([], ["b"])
  {
    assert "<img src=\"b\">" == [] + Tag("b", "");
    TextThenTagParse([], "b", "");
    assert Strip([]) == [];
  }

  /** So `parse_response` is not idempotent: a second pass over the text of
      the first finds and removes the new tag. */
  lemma NotIdempotent()
    ensures var first := ParseResponse("<im<img src=\"a\">g src=\"b\">");
            ParseResponse(first.text) != Parsed(first.text, [])
    ensures var first := ParseResponse("<im<img src=\"a\">g src=\"b\">");
            ParseResponse(first.text).imagePaths == ["b"]
  {
    FirstPass();
    SecondPass();
  }
}
