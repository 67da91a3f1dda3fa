/** The texts the Q/A vector store is built from: one text per row of the
    frequently-asked-questions table. */
module QaVectorstore {
  import opened Wrappers

  /** A row of the table, its two cells already read as strings. */
  datatype QaRow = QaRow(question: string, answer: string)

  const QuestionPrefix: string := "question: "
  const AnswerSeparator: string := "\nanswer: "

  /** The text for one row: the question after "question: ", then a line
      break and "answer: " and the answer. */
  function FormatQa(row: QaRow): (t: string)
    ensures |t| == |QuestionPrefix| + |row.question| + |AnswerSeparator| + |row.answer|
    ensures t[..|QuestionPrefix|] == QuestionPrefix
    ensures t[|QuestionPrefix|..|QuestionPrefix| + |row.question|] == row.question
    ensures t[|QuestionPrefix| + |row.question|..|t| - |row.answer|] == AnswerSeparator
    ensures t[|t| - |row.answer|..] == row.answer
  {
    QuestionPrefix + row.question + AnswerSeparator + row.answer
  }

  /** The loop of the ingestion script: `qa_texts` starts empty and each row,
      in order, appends the text formatted from it. */
  method BuildQaTexts(rows: seq<QaRow>) returns (qaTexts: seq<string>)
    ensures |qaTexts| == |rows|
    ensures forall i :: 0 <= i < |rows| ==> qaTexts[i] == FormatQa(rows[i])
  {
    qaTexts := [];
    var n := 0;
    while n < |rows|
      invariant 0 <= n <= |rows|
      invariant |qaTexts| == n
      invariant forall i :: 0 <= i < n ==> qaTexts[i] == FormatQa(rows[i])
    {
      qaTexts := qaTexts + [FormatQa(rows[n])];
      n := n + 1;
    }
  }

  /** The nine characters of "\nanswer: " start at index `j` of `t`. */
  predicate SeparatorAt(t: string, j: nat) {
    j + 9 <= |t| && t[j] == '\n' && t[j + 1] == 'a' && t[j + 2] == 'n' && t[j + 3] == 's'
    && t[j + 4] == 'w' && t[j + 5] == 'e' && t[j + 6] == 'r' && t[j + 7] == ':' && t[j + 8] == ' '
  }

  /** The first index at or after `i` where the separator starts. */
  function FindSeparator(t: string, i: nat): (r: Option<nat>)
    requires i <= |t|
    ensures r.Some? ==> i <= r.value && SeparatorAt(t, r.value)
    ensures forall j :: i <= j < (if r.Some? then r.value else |t|) ==> !SeparatorAt(t, j)
    decreases |t| - i
  {
    if i == |t| then None
    else if SeparatorAt(t, i) then Some(i)
    else FindSeparator(t, i + 1)
  }

  /** Reading a text back: after "question: ", the question runs up to the
      first separator and the answer is everything after it. */
  function ParseQa(t: string): (r: Option<QaRow>)
  {
    if |t| < 10 || t[..10] != QuestionPrefix then None
    else
      match FindSeparator(t, 10)
      case None => None
      case Some(j) => Some(QaRow(t[10..j], t[j + 9..]))
  }

  /** A text that reads back as a row is that row's text, and its question
      holds no separator. */
  lemma {:induction false} ParseQaSound(t: string)
    requires ParseQa(t).Some?
    ensures FormatQa(ParseQa(t).value) == t
    ensures forall j :: 0 <= j < |ParseQa(t).value.question| ==> !SeparatorAt(ParseQa(t).value.question, j)
  {
    var j := FindSeparator(t, 10).value;
    var row := ParseQa(t).value;
    assert t[j..j + 9] == AnswerSeparator;
    assert t == t[..10] + t[10..j] + t[j..j + 9] + t[j + 9..];
    forall i | 0 <= i < |row.question| ensures !SeparatorAt(row.question, i) {
      assert !SeparatorAt(t, 10 + i);
    }
  }

  /** A text made of "question: ", a string `x` without a line break, the
      separator and any string `w` reads back as the row (x, w). */
  lemma {:induction false} ParseAtFirstSeparator(x: string, w: string)
    requires '\n' !in x
    ensures ParseQa(QuestionPrefix + x + AnswerSeparator + w) == Some(QaRow(x, w))
  {
    var t := QuestionPrefix + x + AnswerSeparator + w;
    var q := |x|;
    assert t[..10] == QuestionPrefix;
    forall j | 10 <= j < 10 + q ensures !SeparatorAt(t, j) {
      assert t[j] == x[j - 10];
    }
    assert SeparatorAt(t, 10 + q) by {
      forall d | 0 <= d < 9 ensures t[10 + q + d] == AnswerSeparator[d] {
        assert t[10 + q + d] == (AnswerSeparator + w)[d];
      }
    }
    FindSeparatorFirst(t, 10, 10 + q);
    assert t[10..10 + q] == x;
    assert t[10 + q + 9..] == w;
  }

  /** The text of a row whose question has no line break reads back as that
      row. */
  lemma {:induction false} QaRoundTrip(row: QaRow)
    requires '\n' !in row.question
    ensures ParseQa(FormatQa(row)) == Some(row)
  {
    ParseAtFirstSeparator(row.question, row.answer);
  }

  /** When the separator first occurs at `k`, that is what the search finds. */
  lemma {:induction false} FindSeparatorFirst(t: string, i: nat, k: nat)
    requires i <= k && SeparatorAt(t, k)
    requires forall j :: i <= j < k ==> !SeparatorAt(t, j)
    ensures FindSeparator(t, i) == Some(k)
    decreases k - i
  {
    if i < k {
      FindSeparatorFirst(t, i + 1, k);
    }
  }

  /** A question that itself holds "\nanswer: " after a line-free start `x`
      does not survive the round trip: the text is split at that inner
      separator, and the rest of the question moves into the answer. */
  lemma {:induction false} QaAmbiguous(x: string, y: string, a: string)
    requires '\n' !in x
    ensures ParseQa(FormatQa(QaRow(x + AnswerSeparator + y, a)))
              == Some(QaRow(x, y + AnswerSeparator + a))
    ensures ParseQa(FormatQa(QaRow(x + AnswerSeparator + y, a))) != Some(QaRow(x + AnswerSeparator + y, a))
  {
    var q, w := x + AnswerSeparator + y, y + AnswerSeparator + a;
    assert q + AnswerSeparator + a == x + AnswerSeparator + w;
    assert FormatQa(QaRow(q, a)) == QuestionPrefix + x + AnswerSeparator + w;
    ParseAtFirstSeparator(x, w);
    assert |x| < |q|;
  }
}
