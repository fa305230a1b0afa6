/** The interviewer's dashboard (src/pages/InterviewerDashboard.tsx): a read-only projection of the store. */
module Dashboard {
  import opened Types
  import opened Text
  import opened Interview

  /** A key of the store together with the score of the record stored under it. */
  datatype Entry = Entry(key: string, score: int)

  /** Scores never increase along the list. */
  predicate SortedByScore(es: seq<Entry>) {
    forall i, j :: 0 <= i < j < |es| ==> es[i].score >= es[j].score
  }

  /** Inserts `e` after every leading entry that scores at least as much, as a stable sort does. */
  function Insert(es: seq<Entry>, e: Entry): (r: seq<Entry>)
    ensures |r| == |es| + 1
    ensures r[0] == e || (|es| > 0 && r[0] == es[0])
  {
    if |es| == 0 then [e]
    else if es[0].score >= e.score then [es[0]] + Insert(es[1..], e)
    else [e] + es
  }

  /** Inserting into a list sorted by score keeps it sorted. */
  lemma {:induction false} InsertSorted(es: seq<Entry>, e: Entry)
    requires SortedByScore(es)
    ensures SortedByScore(Insert(es, e))
    decreases |es|
  {
    if |es| > 0 && es[0].score >= e.score {
      var rest := Insert(es[1..], e);
      InsertSorted(es[1..], e);
      var r := Insert(es, e);
      assert r == [es[0]] + rest;
      forall i, j | 0 <= i < j < |r|
        ensures r[i].score >= r[j].score
      {
        assert r[j] == rest[j - 1];
        if i > 0 {
          assert r[i] == rest[i - 1];
        } else if j > 1 {
          assert rest[0].score >= rest[j - 1].score;
        }
      }
    } else if |es| > 0 {
      var r := Insert(es, e);
      assert r == [e] + es;
      forall i, j | 0 <= i < j < |r|
        ensures r[i].score >= r[j].score
      {
        assert r[j] == es[j - 1];
        if i > 0 {
          assert r[i] == es[i - 1];
        } else if j > 1 {
          assert es[0].score >= es[j - 1].score;
        }
      }
    }
  }

  /** Insertion adds exactly the one entry: the result is a permutation of `es` with `e`. */
  lemma {:induction false} InsertPermutes(es: seq<Entry>, e: Entry)
    ensures multiset(Insert(es, e)) == multiset(es) + multiset{e}
    decreases |es|
  {
    if |es| > 0 && es[0].score >= e.score {
      InsertPermutes(es[1..], e);
      assert es == [es[0]] + es[1..];
    }
  }

  /** Each entry is a key of `scores` with the score it maps to. */
  predicate EntriesOf(es: seq<Entry>, scores: map<string, int>) {
    forall i :: 0 <= i < |es| ==> es[i].key in scores && es[i].score == scores[es[i].key]
  }

  lemma {:induction false} InsertKeepsEntries(es: seq<Entry>, e: Entry, scores: map<string, int>)
    requires EntriesOf(es, scores)
    requires e.key in scores && e.score == scores[e.key]
    ensures EntriesOf(Insert(es, e), scores)
    decreases |es|
  {
    var r := Insert(es, e);
    if |es| > 0 && es[0].score >= e.score {
      InsertKeepsEntries(es[1..], e, scores);
      assert r == [es[0]] + Insert(es[1..], e);
      assert forall i :: 1 <= i < |r| ==> r[i] == Insert(es[1..], e)[i - 1];
    } else if |es| > 0 {
      assert r == [e] + es;
      assert forall i :: 1 <= i < |r| ==> r[i] == es[i - 1];
    }
  }

  function Keys(es: seq<Entry>): (keys: seq<string>)
    ensures |keys| == |es|
    ensures forall i :: 0 <= i < |es| ==> keys[i] == es[i].key
  {
    if |es| == 0 then [] else [es[0].key] + Keys(es[1..])
  }

  lemma {:induction false} KeysOfInsert(es: seq<Entry>, e: Entry)
    ensures multiset(Keys(Insert(es, e))) == multiset(Keys(es)) + multiset{e.key}
    decreases |es|
  {
    if |es| > 0 && es[0].score >= e.score {
      KeysOfInsert(es[1..], e);
      var r := Insert(es, e);
      assert r == [es[0]] + Insert(es[1..], e);
      assert r[1..] == Insert(es[1..], e);
      assert Keys(r) == [es[0].key] + Keys(Insert(es[1..], e));
      assert Keys(es) == [es[0].key] + Keys(es[1..]);
    } else {
      var r := Insert(es, e);
      assert r == [e] + es;
      assert r[1..] == es;
    }
  }

  /** One step of the sort: inserting a fresh key of `scores` with its score. */
  lemma InsertStep(es: seq<Entry>, e: Entry, done: set<string>, scores: map<string, int>)
    requires SortedByScore(es) && EntriesOf(es, scores) && multiset(Keys(es)) == multiset(done)
    requires e.key !in done && e.key in scores && e.score == scores[e.key]
    ensures SortedByScore(Insert(es, e)) && EntriesOf(Insert(es, e), scores)
    ensures multiset(Keys(Insert(es, e))) == multiset(done + {e.key})
  {
    KeysOfInsert(es, e);
    InsertKeepsEntries(es, e, scores);
    InsertSorted(es, e);
  }

  /** Sorts the keys of `scores` by score, highest first, by inserting one key at a time. */
  method SortEntries(scores: map<string, int>) returns (es: seq<Entry>)
    ensures multiset(Keys(es)) == multiset(scores.Keys)
    ensures EntriesOf(es, scores)
    ensures SortedByScore(es)
  {
    var rest := scores.Keys;
    ghost var done: set<string> := {};
    es := [];
    while rest != {}
      invariant rest !! done && rest + done == scores.Keys
      invariant multiset(Keys(es)) == multiset(done)
      invariant EntriesOf(es, scores)
      invariant SortedByScore(es)
      decreases rest
    {
      var k :| k in rest;
      InsertStep(es, Entry(k, scores[k]), done, scores);
      es := Insert(es, Entry(k, scores[k]));
      rest := rest - {k};
      done := done + {k};
    }
  }

  /**
   * `Object.values(candidates).sort((a, b) => b.finalScore - a.finalScore)`, returned with the key
   * of each entry: every stored candidate exactly once, highest score first.
   */
  method CandidateList(m: map<string, Candidate>) returns (keys: seq<string>, list: seq<Candidate>)
    ensures multiset(keys) == multiset(m.Keys)
    ensures |list| == |keys| == |m|
    ensures forall i :: 0 <= i < |keys| ==> keys[i] in m && list[i] == m[keys[i]]
    ensures forall i, j :: 0 <= i < j < |list| ==> list[i].finalScore >= list[j].finalScore
  {
    var scores := map k | k in m :: m[k].finalScore;
    assert scores.Keys == m.Keys;
    var es := SortEntries(scores);
    keys := Keys(es);
    assert |multiset(keys)| == |keys|;
    assert |multiset(m.Keys)| == |m.Keys| == |m|;
    list := seq(|keys|, i requires 0 <= i < |keys| && keys[i] in m => m[keys[i]]);
    assert forall i :: 0 <= i < |list| ==> list[i].finalScore == es[i].score;
  }

  /** The score cell: "<score> / 100" for a positive score, "N/A" otherwise. */
  function ScoreLabel(score: int): (r: string)
    ensures score <= 0 ==> r == "N/A"
    ensures score > 0 ==> |r| > 6 && r[|r| - 6..] == " / 100" && AllDigits(r[..|r| - 6]) && DigitsValue(r[..|r| - 6]) == score
    ensures score > 0 ==> r[0] != '0'
  {
    if score > 0 then
      var r := IntToString(score) + " / 100";
      assert r[..|r| - 6] == NatToString(score);
      NatToStringRoundTrip(score);
      r
    else "N/A"
  }

  /** The name cell: the name, or "N/A" when it is empty. */
  function NameLabel(name: string): (r: string)
    ensures r != []
    ensures name != [] ==> r == name
    ensures name == [] ==> r == "N/A"
  {
    if name != [] then name else "N/A"
  }

  /** The status badge text: the state's name with its FIRST underscore turned into a space. */
  function StatusLabel(st: InterviewState): (r: string)
    ensures |r| == |StateName(st)|
    ensures '_' in StateName(st) ==> r[IndexOf(StateName(st), '_')] == ' '
    ensures forall k :: 0 <= k < |r| && k != IndexOf(StateName(st), '_') ==> r[k] == StateName(st)[k]
  {
    ReplaceFirst(StateName(st), '_', ' ')
  }

  /** Only the first underscore is replaced: READY_TO_START reads "READY TO_START". */
  lemma ReadyLabelKeepsSecondUnderscore()
    ensures StatusLabel(ReadyToStart) == "READY TO_START"
  {
    ReadyNameRelabelled(StateName(ReadyToStart));
  }

  lemma ReadyNameRelabelled(n: string)
    requires n == "READY_TO_START"
    ensures ReplaceFirst(n, '_', ' ') == "READY TO_START"
  {
    assert n[..5] == "READY" && n[6..] == "TO_START";
    ReplaceFirstAt(n, '_', ' ', 5);
  }

  /** The two badge styles. */
  datatype Variant = DefaultVariant | SecondaryVariant

  function BadgeVariant(st: InterviewState): (v: Variant)
    ensures v == DefaultVariant <==> st == Completed
  {
    if st == Completed then DefaultVariant else SecondaryVariant
  }

  /** One table row. */
  datatype Row = EmptyRow | CandidateRow(name: string, status: string, variant: Variant, score: string)

  function RowOf(c: Candidate): Row {
    CandidateRow(NameLabel(c.name), StatusLabel(c.interviewState), BadgeVariant(c.interviewState), ScoreLabel(c.finalScore))
  }

  /** The table body: the single "No candidates yet." row for an empty list, one row per candidate otherwise. */
  function Rows(list: seq<Candidate>): (rows: seq<Row>)
    ensures |list| == 0 ==> rows == [EmptyRow]
    ensures |list| > 0 ==> |rows| == |list| && forall i :: 0 <= i < |list| ==> rows[i] == RowOf(list[i])
    ensures EmptyRow in rows <==> |list| == 0
  {
    if |list| == 0 then [EmptyRow] else seq(|list|, i requires 0 <= i < |list| => RowOf(list[i]))
  }
}
