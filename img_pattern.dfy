/** The image-tag pattern of the response parser,
    `<img\s+[^>]*?src="([^"]+)"[^>]*?>`, matched at one position the way
    Python's backtracking `re` engine matches it. */
module ImgPattern {
  import opened Wrappers
  import opened PyStr

  /** A match: the index just past its closing `>` and the captured `src` value. */
  datatype Match = Match(end: nat, src: string)

  /** `<img` begins at `i`. */
  predicate ImgAt(s: string, i: nat) {
    i + 4 <= |s| && s[i] == '<' && s[i + 1] == 'i' && s[i + 2] == 'm' && s[i + 3] == 'g'
  }

  /** `src="` begins at `p`. */
  predicate SrcAt(s: string, p: nat) {
    p + 5 <= |s| && s[p] == 's' && s[p + 1] == 'r' && s[p + 2] == 'c' && s[p + 3] == '=' && s[p + 4] == '"'
  }

  /** The first index at or after `k` that holds `c`. */
  function FindChar(s: string, k: nat, c: char): (r: Option<nat>)
    requires k <= |s|
    ensures r.Some? ==> k <= r.value < |s| && s[r.value] == c
    decreases |s| - k
  {
    if k == |s| then None
    else if s[k] == c then Some(k)
    else FindChar(s, k + 1, c)
  }

  /** ... and no index before it, or none at all, holds `c`. */
  lemma {:induction false} FindCharFirst(s: string, k: nat, c: char)
    requires k <= |s|
    ensures forall j :: k <= j < |s| && (FindChar(s, k, c).None? || j < FindChar(s, k, c).value) ==> s[j] != c
    decreases |s| - k
  {
    if k < |s| && s[k] != c {
      FindCharFirst(s, k + 1, c);
    }
  }

  /** s[q..m+1] is an instance of `([^"]+)"[^>]*?>` whose group is s[q..e]:
      the closing quote is at `e` and the closing `>` at `m`. */
  ghost predicate Tail(s: string, q: nat, e: nat, m: nat) {
    && q < e < m < |s|
    && '"' !in s[q..e]
    && s[e] == '"'
    && '>' !in s[e + 1..m]
    && s[m] == '>'
  }

  /** The part of the pattern after `src="`, tried at `q`: the greedy group
      runs to the first `"`, which must not be at `q`, and the lazy run after
      it stops at the first `>`. */
  function ValueAt(s: string, q: nat): (r: Option<Match>)
    requires q <= |s|
    ensures r.Some? ==> q + 3 <= r.value.end <= |s| && |r.value.src| > 0 && '"' !in r.value.src
  {
    FindCharFirst(s, q, '"');
    match FindChar(s, q, '"')
    case None => None
    case Some(e) =>
      if e == q then None
      else
        match FindChar(s, e + 1, '>')
        case None => None
        case Some(m) => Some(Match(m + 1, s[q..e]))
  }

  /** ValueAt succeeds only on an instance of the tail of the pattern. */
  lemma {:induction false} ValueAtSound(s: string, q: nat) returns (e: nat, m: nat)
    requires q <= |s| && ValueAt(s, q).Some?
    ensures Tail(s, q, e, m) && ValueAt(s, q).value == Match(m + 1, s[q..e])
  {
    e := FindChar(s, q, '"').value;
    m := FindChar(s, e + 1, '>').value;
    FindCharFirst(s, q, '"');
    FindCharFirst(s, e + 1, '>');
  }

  /** Every instance of the tail is found by ValueAt, which then captures its
      group: the closing quote and the closing `>` are the first ones. */
  lemma {:induction false} ValueAtComplete(s: string, q: nat, e: nat, m: nat)
    requires Tail(s, q, e, m)
    ensures ValueAt(s, q) == Some(Match(m + 1, s[q..e]))
  {
    FindCharFirst(s, q, '"');
    var fe := FindChar(s, q, '"');
    assert fe == Some(e);
    FindCharFirst(s, e + 1, '>');
    var fm := FindChar(s, e + 1, '>');
    assert fm == Some(m);
  }

  /** `src="` at `p` can complete a match, and the lazy `[^>]*?` that reaches
      `p` from `p0` has not crossed a `>`. */
  ghost predicate Candidate(s: string, p0: nat, p: nat) {
    && p0 <= p && p + 5 <= |s|
    && '>' !in s[p0..p]
    && SrcAt(s, p)
    && ValueAt(s, p + 5).Some?
  }

  /** The earliest candidate `src="` at or after `p0`: the lazy quantifier
      tries the shortest run first and stops at the first `>`. */
  function SrcPos(s: string, p0: nat): (r: Option<nat>)
    requires p0 <= |s|
    ensures r.Some? ==> p0 <= r.value && r.value + 5 <= |s| && ValueAt(s, r.value + 5).Some?
    decreases |s| - p0
  {
    if p0 == |s| || s[p0] == '>' then None
    else if SrcAt(s, p0) && ValueAt(s, p0 + 5).Some? then Some(p0)
    else SrcPos(s, p0 + 1)
  }

  /** No candidate can be reached across a `>`. */
  lemma {:induction false} NoCandidateAcross(s: string, p0: nat, p: nat)
    requires p0 < |s| && s[p0] == '>'
    ensures !Candidate(s, p0, p)
  {
  }

  /** Past a character other than `>`, the later candidates stay the same. */
  lemma {:induction false} CandidateShift(s: string, p0: nat, p: nat)
    requires p0 < p && p0 < |s| && s[p0] != '>'
    ensures Candidate(s, p0, p) <==> Candidate(s, p0 + 1, p)
  {
  }

  /** SrcPos finds a candidate ... */
  lemma {:induction false} SrcPosCandidate(s: string, p0: nat)
    requires p0 <= |s|
    ensures SrcPos(s, p0).Some? ==> Candidate(s, p0, SrcPos(s, p0).value)
    decreases |s| - p0
  {
    if p0 < |s| && s[p0] != '>' && !(SrcAt(s, p0) && ValueAt(s, p0 + 5).Some?) {
      SrcPosCandidate(s, p0 + 1);
      if SrcPos(s, p0).Some? {
        CandidateShift(s, p0, SrcPos(s, p0).value);
      }
    }
  }

  /** ... and no candidate lies before the one it finds. */
  lemma {:induction false} SrcPosEarliest(s: string, p0: nat)
    requires p0 <= |s|
    ensures SrcPos(s, p0).Some? ==> Candidate(s, p0, SrcPos(s, p0).value)
    ensures forall p: nat :: p0 <= p && (SrcPos(s, p0).None? || p < SrcPos(s, p0).value) ==> !Candidate(s, p0, p)
    decreases |s| - p0
  {
    SrcPosCandidate(s, p0);
    if p0 == |s| {
    } else if s[p0] == '>' {
      forall p: nat ensures !Candidate(s, p0, p) {
        NoCandidateAcross(s, p0, p);
      }
    } else if SrcAt(s, p0) && ValueAt(s, p0 + 5).Some? {
    } else {
      SrcPosEarliest(s, p0 + 1);
      var r := SrcPos(s, p0 + 1);
      forall p: nat | p0 <= p && (r.None? || p < r.value) ensures !Candidate(s, p0, p) {
        if p > p0 {
          CandidateShift(s, p0, p);
        }
      }
    }
  }

  /** `<img` at `i`, then a whitespace character (the first of `\s+`). */
  predicate Head(s: string, i: nat) {
    ImgAt(s, i) && i + 4 < |s| && IsSpace(s[i + 4])
  }

  /** Tries the whole pattern with its `<img` at `i`. */
  function MatchAt(s: string, i: nat): (r: Option<Match>)
    requires i <= |s|
    ensures r.Some? ==> i + 13 <= r.value.end <= |s| && |r.value.src| > 0 && '"' !in r.value.src
  {
    if Head(s, i) && SrcPos(s, i + 5).Some? then ValueAt(s, SrcPos(s, i + 5).value + 5)
    else None
  }

  /** The regular language of the pattern, piece by piece: s[i..m+1] reads
      `<img`, the whitespace run s[i+4..k] (`\s+`), the `>`-free run s[k..p]
      (`[^>]*?`), `src="` at p, the quote-free group s[p+5..e] (`([^"]+)`),
      `"` at e, the `>`-free run s[e+1..m] (`[^>]*?`) and `>` at m. */
  ghost predicate Instance(s: string, i: nat, k: nat, p: nat, e: nat, m: nat) {
    && i + 4 < k <= p && p + 5 < e < m < |s|
    && ImgAt(s, i)
    && AllSpace(s[i + 4..k])
    && '>' !in s[k..p]
    && SrcAt(s, p)
    && Tail(s, p + 5, e, m)
  }

  /** Each instance makes its `src="` a candidate of the lazy search that
      starts one character after `<img`, and the tail after it yields the
      instance's group. */
  lemma {:induction false} InstanceCandidate(s: string, i: nat, k: nat, p: nat, e: nat, m: nat)
    requires Instance(s, i, k, p, e, m)
    ensures Head(s, i) && Candidate(s, i + 5, p)
    ensures ValueAt(s, p + 5) == Some(Match(m + 1, s[p + 5..e]))
  {
    var w := s[i + 4..k];
    assert s[i + 4] == w[0];
    forall j | i + 5 <= j < k ensures s[j] != '>' {
      assert s[j] == w[j - i - 4];
    }
    ValueAtComplete(s, p + 5, e, m);
  }

  /** Given a candidate, the lazy search stops at or before it. */
  lemma {:induction false} CandidateMatch(s: string, i: nat, p: nat)
    requires Candidate(s, i + 5, p)
    ensures SrcPos(s, i + 5).Some? && SrcPos(s, i + 5).value <= p
  {
    SrcPosEarliest(s, i + 5);
  }

  /** Where the lazy search stops, the match is what the tail yields. */
  lemma {:induction false} MatchAtFrom(s: string, i: nat, q: nat)
    requires Head(s, i) && SrcPos(s, i + 5).Some? && SrcPos(s, i + 5).value == q
    ensures MatchAt(s, i) == ValueAt(s, q + 5)
  {
    assert SrcPos(s, i + 5).value + 5 == q + 5;
  }

  /** If the pattern has any instance at `i`, MatchAt finds a match there. */
  lemma {:induction false} MatchAtComplete(s: string, i: nat, k: nat, p: nat, e: nat, m: nat)
    requires Instance(s, i, k, p, e, m)
    ensures MatchAt(s, i).Some?
  {
    InstanceCandidate(s, i, k, p, e, m);
    CandidateMatch(s, i, p);
    MatchAtFrom(s, i, SrcPos(s, i + 5).value);
  }

  /** A match is what the tail of the pattern yields at the earliest
      candidate `src="`. */
  lemma {:induction false} MatchAtValue(s: string, i: nat) returns (q: nat)
    requires i <= |s| && MatchAt(s, i).Some?
    ensures Head(s, i) && SrcPos(s, i + 5).Some? && SrcPos(s, i + 5).value == q && MatchAt(s, i) == ValueAt(s, q + 5)
  {
    q := SrcPos(s, i + 5).value;
  }

  /** A candidate, with the tail that ValueAt finds after it, is an instance
      of the pattern. */
  lemma {:induction false} CandidateInstance(s: string, i: nat, q: nat, e: nat, m: nat)
    requires Head(s, i) && Candidate(s, i + 5, q) && Tail(s, q + 5, e, m)
    ensures Instance(s, i, i + 5, q, e, m)
  {
  }

  /** The earliest candidate starts an instance, whose group the tail
      captures. */
  lemma {:induction false} EarliestInstance(s: string, i: nat, q: nat) returns (e: nat, m: nat)
    requires Head(s, i) && SrcPos(s, i + 5).Some? && SrcPos(s, i + 5).value == q
    ensures Instance(s, i, i + 5, q, e, m)
    ensures ValueAt(s, q + 5) == Some(Match(m + 1, s[q + 5..e]))
  {
    SrcPosCandidate(s, i + 5);
    e, m := ValueAtSound(s, q + 5);
    CandidateInstance(s, i, q, e, m);
  }

  /** A match found by MatchAt is an instance of the pattern, and its `src="`
      is the leftmost one of all instances at `i`. */
  lemma {:induction false} MatchAtSound(s: string, i: nat) returns (p: nat, e: nat, m: nat)
    requires i <= |s| && MatchAt(s, i).Some?
    ensures Instance(s, i, i + 5, p, e, m)
    ensures MatchAt(s, i) == Some(Match(m + 1, s[p + 5..e]))
    ensures forall k': nat, p': nat, e': nat, m': nat :: Instance(s, i, k', p', e', m') ==> p <= p'
  {
    p := MatchAtValue(s, i);
    e, m := EarliestInstance(s, i, p);
    forall k': nat, p': nat, e': nat, m': nat | Instance(s, i, k', p', e', m') ensures p <= p' {
      InstanceCandidate(s, i, k', p', e', m');
      CandidateMatch(s, i, p');
    }
  }

  /** What any match needs: `<img` and whitespace at `i`, and later a
      `src="` followed by something other than `"`, and a `>` after it. */
  lemma {:induction false} MatchAtNeeds(s: string, i: nat)
    requires i <= |s|
    ensures MatchAt(s, i).Some? ==>
      && Head(s, i)
      && exists p: nat, m: nat :: i + 5 <= p && p + 5 < m < |s| && SrcAt(s, p)
                                  && s[p + 5] != '"' && s[m] == '>'
  {
    if MatchAt(s, i).Some? {
      var p, e, m := MatchAtSound(s, i);
      assert SrcAt(s, p) && s[p + 5] != '"' && s[m] == '>';
    }
  }

  /** What Python's engine returns: for the instance at `i` with the
      leftmost `src="`, the match ends after its `>` and captures its group. */
  lemma {:induction false} MatchAtLeftmost(s: string, i: nat, k: nat, p: nat, e: nat, m: nat)
    requires Instance(s, i, k, p, e, m)
    requires forall k': nat, p': nat, e': nat, m': nat :: Instance(s, i, k', p', e', m') ==> p <= p'
    ensures MatchAt(s, i) == Some(Match(m + 1, s[p + 5..e]))
  {
    InstanceCandidate(s, i, k, p, e, m);
    CandidateMatch(s, i, p);
    var q := SrcPos(s, i + 5).value;
    var e0, m0 := EarliestInstance(s, i, q);
    assert p <= q;
    MatchAtFrom(s, i, p);
  }
}
