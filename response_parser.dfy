/** `parse_response`: the image paths of a model reply (`findall`) and the
    reply with every image tag removed and its ends stripped (`sub`, then
    `strip`). Both come from one left-to-right scan for the image pattern. */
module ResponseParser {
  import opened Wrappers
  import opened PyStr
  import opened ImgPattern

  /** The scan cuts the reply into pieces: a character that stays in the text,
      or a whole matched tag with the `src` value it captured. */
  datatype Piece = Char(c: char) | Image(tag: string, src: string)

  function Width(p: Piece): nat {
    match p
    case Char(_) => 1
    case Image(tag, _) => |tag|
  }

  /** The reply text one piece covers. */
  function Cover(p: Piece): (t: string)
    ensures |t| == Width(p)
  {
    match p
    case Char(c) => [c]
    case Image(tag, _) => tag
  }

  /** The reply text the pieces cover. */
  function Raw(ps: seq<Piece>): string {
    if ps == [] then [] else Cover(ps[0]) + Raw(ps[1..])
  }

  /** The captured values, in order. */
  function Srcs(ps: seq<Piece>): seq<string> {
    if ps == [] then []
    else (match ps[0] case Char(_) => [] case Image(_, src) => [src]) + Srcs(ps[1..])
  }

  /** The characters that are not part of a matched tag, in order. */
  function Kept(ps: seq<Piece>): string {
    if ps == [] then []
    else (match ps[0] case Char(c) => [c] case Image(_, _) => []) + Kept(ps[1..])
  }

  /** For each index of a reply, the match of the pattern that starts there,
      if any. */
  type Matcher = nat -> Option<Match>

  /** The matcher of the image pattern on reply `s`. */
  function PatternOn(s: string): Matcher {
    (j: nat) => if j <= |s| then MatchAt(s, j) else None
  }

  /** What the scan relies on about a matcher: each match it reports stays
      inside the reply, is at least 13 characters long and captures a
      non-empty value without `"`. */
  ghost predicate WellFormed(s: string, f: Matcher) {
    forall j: nat :: j < |s| && f(j).Some? ==>
      j + 13 <= f(j).value.end <= |s| && |f(j).value.src| > 0 && '"' !in f(j).value.src
  }

  lemma {:induction false} PatternWellFormed(s: string)
    ensures WellFormed(s, PatternOn(s))
  {
    forall j: nat | j < |s| && PatternOn(s)(j).Some?
      ensures j + 13 <= PatternOn(s)(j).value.end <= |s|
      ensures |PatternOn(s)(j).value.src| > 0 && '"' !in PatternOn(s)(j).value.src
    {
      assert PatternOn(s)(j) == MatchAt(s, j);
    }
  }

  /** One step of the scan at index `i`: the match starting there as one
      piece, or else the single character there. */
  function Step(s: string, f: Matcher, i: nat): (p: Piece)
    requires WellFormed(s, f) && i < |s|
    ensures i < i + Width(p) <= |s| && Cover(p) == s[i..i + Width(p)]
    ensures p.Image? ==> 13 <= |p.tag| && |p.src| > 0 && '"' !in p.src
  {
    match f(i)
    case Some(m) => Image(s[i..m.end], m.src)
    case None => Char(s[i])
  }

  /** The scan of `findall` and `sub` from index `i`: where a match starts,
      the whole tag is one piece and the scan resumes after it (matches never
      overlap); elsewhere one character is kept and the scan moves on by one.
      The pieces cover the rest of the reply exactly. */
  function ScanBy(s: string, f: Matcher, i: nat): (ps: seq<Piece>)
    requires WellFormed(s, f) && i <= |s|
    ensures Raw(ps) == s[i..]
    ensures AllPlain(ps)
    decreases |s| - i
  {
    if i == |s| then []
    else
      var p := Step(s, f, i);
      var j := i + Width(p);
      var rest := ScanBy(s, f, j);
      RawCons(s, i, j, p, rest);
      AllPlainCons(p, rest);
      [p] + rest
  }

  lemma {:induction false} RawCons(s: string, i: nat, j: nat, p: Piece, rest: seq<Piece>)
    requires i <= j <= |s| && Cover(p) == s[i..j] && Raw(rest) == s[j..]
    ensures Raw([p] + rest) == s[i..]
  {
    assert ([p] + rest)[0] == p;
    assert ([p] + rest)[1..] == rest;
    assert s[i..] == s[i..j] + s[j..];
  }

  /** A tag piece is at least 13 characters long and carries a non-empty
      capture without `"`. */
  ghost predicate PlainPiece(p: Piece) {
    p.Image? ==> 13 <= |p.tag| && |p.src| > 0 && '"' !in p.src
  }

  /** Every piece of `ps` is such a piece. */
  ghost predicate AllPlain(ps: seq<Piece>) {
    ps == [] || (PlainPiece(ps[0]) && AllPlain(ps[1..]))
  }

  lemma {:induction false} AllPlainCons(p: Piece, rest: seq<Piece>)
    requires PlainPiece(p) && AllPlain(rest)
    ensures AllPlain([p] + rest)
  {
    assert ([p] + rest)[0] == p;
    assert ([p] + rest)[1..] == rest;
  }

  lemma {:induction false} AllPlainAt(ps: seq<Piece>, k: nat)
    requires AllPlain(ps) && k < |ps|
    ensures PlainPiece(ps[k])
    decreases k
  {
    if k > 0 {
      AllPlainAt(ps[1..], k - 1);
    }
  }

  /** The scan of the image pattern over reply `s`. */
  function Scan(s: string): (ps: seq<Piece>)
    ensures Raw(ps) == s
    ensures forall k :: 0 <= k < |ps| && ps[k].Image? ==>
              13 <= |ps[k].tag| && |ps[k].src| > 0 && '"' !in ps[k].src
  {
    PatternWellFormed(s);
    var ps := ScanBy(s, PatternOn(s), 0);
    forall k | 0 <= k < |ps| ensures PlainPiece(ps[k]) {
      AllPlainAt(ps, k);
    }
    ps
  }

  /** `img_pattern.findall(response)`: the captured paths, in order. Every
      path is non-empty and holds no `"`, and each accounts for a tag of at
      least 13 characters of the reply. */
  function FindAll(s: string): (paths: seq<string>)
    ensures forall j :: 0 <= j < |paths| ==> |paths[j]| > 0 && '"' !in paths[j]
    ensures 13 * |paths| <= |s|
  {
    var ps := Scan(s);
    SrcsOfImages(ps);
    RawCoversImages(ps);
    Srcs(ps)
  }

  /** `img_pattern.sub('', response)`: the reply with every matched tag
      deleted. It is shorter than the reply by at least 13 characters per
      path `findall` extracts, and it is the reply itself when there is no
      path. */
  function Sub(s: string): (text: string)
    ensures |text| + 13 * |FindAll(s)| <= |s|
    ensures FindAll(s) == [] ==> text == s
  {
    var ps := Scan(s);
    RawCoversImages(ps);
    Kept(ps)
  }

  /** The pair `(text, image_paths)` that `parse_response` returns. */
  datatype Parsed = Parsed(text: string, imagePaths: seq<string>)

  /** `parse_response(response)`. The text has no whitespace at either end and
      is what is left of the tag-free reply after removing whitespace, and
      only whitespace, from its ends; every path is non-empty and holds no
      `"`; each path accounts for at least 13 characters of the reply. */
  function ParseResponse(response: string): (r: Parsed)
    ensures r.text == [] || (!IsSpace(r.text[0]) && !IsSpace(r.text[|r.text| - 1]))
    ensures exists a: nat, b: nat :: a <= b <= |Sub(response)| && r.text == Sub(response)[a..b]
                                   && SpaceOutside(Sub(response), a, b)
    ensures forall j :: 0 <= j < |r.imagePaths| ==> |r.imagePaths[j]| > 0 && '"' !in r.imagePaths[j]
    ensures 13 * |r.imagePaths| <= |response|
  {
    Parsed(Strip(Sub(response)), FindAll(response))
  }

  lemma {:induction false} RawConcat(xs: seq<Piece>, ys: seq<Piece>)
    ensures Raw(xs + ys) == Raw(xs) + Raw(ys)
  {
    if xs == [] {
      assert xs + ys == ys;
    } else {
      assert (xs + ys)[0] == xs[0];
      assert (xs + ys)[1..] == xs[1..] + ys;
      RawConcat(xs[1..], ys);
    }
  }

  /** Every captured value comes from a tag piece. */
  lemma {:induction false} SrcsOfImages(ps: seq<Piece>)
    requires forall k :: 0 <= k < |ps| && ps[k].Image? ==> |ps[k].src| > 0 && '"' !in ps[k].src
    ensures forall j :: 0 <= j < |Srcs(ps)| ==> |Srcs(ps)[j]| > 0 && '"' !in Srcs(ps)[j]
  {
    if ps != [] {
      SrcsOfImages(ps[1..]);
    }
  }

  /** Each captured value accounts for a tag of at least 13 characters that
      is not kept; without tag pieces, everything is kept. */
  lemma {:induction false} RawCoversImages(ps: seq<Piece>)
    requires forall k :: 0 <= k < |ps| && ps[k].Image? ==> 13 <= |ps[k].tag|
    ensures |Kept(ps)| + 13 * |Srcs(ps)| <= |Raw(ps)|
    ensures Srcs(ps) == [] ==> Kept(ps) == Raw(ps)
  {
    if ps != [] {
      RawCoversImages(ps[1..]);
    }
  }

  /** Piece `p` is what matcher `f` dictates at index `at` of `s`: a kept
      character where no match starts, or exactly the match that starts
      there, with its capture. */
  ghost predicate ScannedAt(s: string, f: Matcher, at: nat, p: Piece) {
    at < |s| &&
    match p
    case Char(c) => c == s[at] && f(at).None?
    case Image(tag, src) => at + |tag| <= |s| && tag == s[at..at + |tag|]
                            && f(at) == Some(Match(at + |tag|, src))
  }

  lemma {:induction false} StepScanned(s: string, f: Matcher, i: nat)
    requires WellFormed(s, f) && i < |s|
    ensures ScannedAt(s, f, i, Step(s, f, i))
  {
  }

  /** `ps` tiles s[i..] under matcher `f`: read left to right, each piece is
      what `f` dictates at the index where it begins, and the last one ends
      at the end of the reply. */
  ghost predicate Tiles(s: string, f: Matcher, i: nat, ps: seq<Piece>)
    decreases |ps|
  {
    if ps == [] then i == |s|
    else ScannedAt(s, f, i, ps[0]) && Tiles(s, f, i + Width(ps[0]), ps[1..])
  }

  /** The scan is such a tiling. */
  lemma {:induction false} ScanByTiles(s: string, f: Matcher, i: nat)
    requires WellFormed(s, f) && i <= |s|
    ensures Tiles(s, f, i, ScanBy(s, f, i))
    decreases |s| - i
  {
    if i < |s| {
      var p := Step(s, f, i);
      var j := i + Width(p);
      var rest := ScanBy(s, f, j);
      var ps := ScanBy(s, f, i);
      assert ps == [p] + rest;
      assert ps[0] == p && ps[1..] == rest;
      StepScanned(s, f, i);
      ScanByTiles(s, f, j);
    }
  }

  /** Two tilings of the same text under the same matcher begin with the
      same piece. */
  lemma {:induction false} TilesSameHead(s: string, f: Matcher, i: nat, ps: seq<Piece>, qs: seq<Piece>)
    requires Tiles(s, f, i, ps) && Tiles(s, f, i, qs) && ps != []
    ensures qs != [] && ps[0] == qs[0]
  {
    match f(i)
    case Some(m) =>
      assert ps[0].Image? && qs[0].Image?;
      assert |ps[0].tag| == |qs[0].tag|;
    case None =>
      assert ps[0].Char? && qs[0].Char?;
  }

  /** A matcher allows one tiling at most. */
  lemma {:induction false} TilesDeterministic(s: string, f: Matcher, i: nat, ps: seq<Piece>, qs: seq<Piece>)
    requires Tiles(s, f, i, ps) && Tiles(s, f, i, qs)
    ensures ps == qs
    decreases |ps|
  {
    if ps != [] {
      TilesSameHead(s, f, i, ps, qs);
      TilesDeterministic(s, f, i + Width(ps[0]), ps[1..], qs[1..]);
      assert ps == [ps[0]] + ps[1..] && qs == [qs[0]] + qs[1..];
    } else if qs != [] {
      TilesSameHead(s, f, i, qs, ps);
    }
  }

  /** ... so a tiling is the scan. */
  lemma {:induction false} TilesUnique(s: string, f: Matcher, i: nat, ps: seq<Piece>)
    requires WellFormed(s, f) && i <= |s| && Tiles(s, f, i, ps)
    ensures ps == ScanBy(s, f, i)
  {
    ScanByTiles(s, f, i);
    TilesDeterministic(s, f, i, ps, ScanBy(s, f, i));
  }

  /** In a tiling, the k-th piece begins where the pieces before it end. */
  lemma {:induction false} TilesAt(s: string, f: Matcher, i: nat, ps: seq<Piece>, k: nat)
    requires Tiles(s, f, i, ps) && k < |ps|
    ensures ScannedAt(s, f, i + |Raw(ps[..k])|, ps[k])
    decreases k
  {
    if k == 0 {
      assert ps[..0] == [];
    } else {
      TilesAt(s, f, i + Width(ps[0]), ps[1..], k - 1);
      assert ps[..k] == [ps[0]] + ps[1..][..k - 1];
      RawConcat([ps[0]], ps[1..][..k - 1]);
      assert Raw([ps[0]]) == Cover(ps[0]);
    }
  }

  lemma {:induction false} PatternOnIs(s: string, j: nat)
    requires j <= |s|
    ensures PatternOn(s)(j) == MatchAt(s, j)
  {
  }

  /** For the image pattern: the k-th piece of the scan of `s` begins where
      the pieces before it end; a kept character is one at which the pattern
      does not match (PatternOn(s)(j) is MatchAt(s, j)), and a tag piece is
      exactly the match that begins there, with its capture. So `findall`
      lists the captures of these matches in the order they occur, and `sub`
      keeps exactly the other characters. */
  lemma {:induction false} ScanAt(s: string, k: nat)
    requires k < |Scan(s)|
    ensures ScannedAt(s, PatternOn(s), |Raw(Scan(s)[..k])|, Scan(s)[k])
  {
    PatternWellFormed(s);
    ScanByTiles(s, PatternOn(s), 0);
    TilesAt(s, PatternOn(s), 0, Scan(s), k);
  }

  /** Where no match starts, every character is kept and nothing is captured. */
  lemma {:induction false} NoMatchBy(s: string, f: Matcher, i: nat)
    requires WellFormed(s, f) && i <= |s|
    requires forall j: nat :: i <= j < |s| ==> f(j).None?
    ensures Kept(ScanBy(s, f, i)) == s[i..] && Srcs(ScanBy(s, f, i)) == []
    decreases |s| - i
  {
    if i < |s| {
      var rest := ScanBy(s, f, i + 1);
      assert ScanBy(s, f, i) == [Char(s[i])] + rest;
      assert ([Char(s[i])] + rest)[1..] == rest;
      NoMatchBy(s, f, i + 1);
      assert s[i..] == [s[i]] + s[i + 1..];
    }
  }

  /** A reply in which the pattern matches nowhere comes back with no paths
      and its text only stripped: unmatched markup stays in the text as it
      is. */
  lemma {:induction false} NoMatchParse(s: string)
    requires forall j: nat :: j < |s| ==> MatchAt(s, j).None?
    ensures ParseResponse(s) == Parsed(Strip(s), [])
  {
    PatternWellFormed(s);
    forall j: nat | j < |s| ensures PatternOn(s)(j).None? {
      assert PatternOn(s)(j) == MatchAt(s, j);
    }
    NoMatchBy(s, PatternOn(s), 0);
  }
}
