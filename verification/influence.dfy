/** `WeightedStrategy`: views weigh 0.7, likes 0.3, in exact decimal
    arithmetic (`BigDecimal.valueOf(0.7)` is exactly seven tenths). */
module Weighted {

  /** `WeightedStrategy.score(totalViews, totalLikes)`. */
  function Score(views: int, likes: int): (r: real)
    ensures 10.0 * r == (7 * views + 3 * likes) as real
    ensures 0 <= views && 0 <= likes ==> 0.0 <= r
  {
    views as real * 0.7 + likes as real * 0.3
  }

  lemma ZeroScore()
    ensures Score(0, 0) == 0.0
  {
  }

  /** More views or more likes never lower the score. */
  lemma ScoreMonotone(v: int, l: int, v': int, l': int)
    requires v <= v' && l <= l'
    ensures Score(v, l) <= Score(v', l')
  {
  }

  /** Views outweigh likes: swapping the larger count into the views
      column never lowers the score. */
  lemma ViewsOutweighLikes(a: int, b: int)
    requires a >= b
    ensures Score(a, b) >= Score(b, a)
  {
  }

  /** A thousand views and a hundred likes score 730. */
  lemma ScoreExample()
    ensures Score(1000, 100) == 730.0
  {
  }
}

/** `InfluenceService`: the per-speaker aggregation its SQL performs, the
    score of each group under an injected strategy, the ranking by score
    and the most influential speaker.

    The query is `speakers JOIN talks ON t.speaker_id = s.id`, optionally
    filtered by the year prefix of the stored date, grouped by speaker.
    A database returns the groups in no particular order; the model lists
    them in speaker-table order. */
module Influence {
  import opened Outcomes
  import opened Seqs
  import opened Text
  import opened Dates
  import opened Speakers
  import opened Talks

  /** `InfluenceStrategy.score`: totals to a decimal score. */
  type Strategy = (int, int) -> real

  /** `SpeakerInfluenceDto`. */
  datatype InfluenceRow = InfluenceRow(speakerId: int, name: string, totalViews: int, totalLikes: int, score: real)

  /** `MostInfluentialSpeaker`. */
  datatype Leader = Leader(id: int, name: string, score: real)

  // ---------------------------------------------------------------------
  // Grouping
  // ---------------------------------------------------------------------

  /** `SUBSTRING(t.date, 1, 4) = String.valueOf(year)`, or no filter. */
  predicate InYear(year: Option<int>, t: Talk) {
    year.None? || StoredYear(t.date) == IntToString(year.value)
  }

  /** The year filter selects the talks of exactly that year, and only a
      four-digit year selects anything. */
  lemma InYearIff(y: int, t: Talk)
    ensures InYear(Some(y), t) <==> 1000 <= y && t.date.year == y
  {
    StoredYearMatches(t.date, y);
  }

  /** The joined rows of one speaker that survive the filter. */
  function InGroup(speakerId: int, year: Option<int>): Talk -> bool {
    (t: Talk) => t.speakerId == speakerId && InYear(year, t)
  }

  function Views(t: Talk): int {
    t.views
  }

  function Likes(t: Talk): int {
    t.likes
  }

  /** `SUM(col)` over the talks that satisfy `p`. */
  function TotalWhere(ts: seq<Talk>, p: Talk -> bool, col: Talk -> int): int {
    if |ts| == 0 then 0
    else (if p(ts[0]) then col(ts[0]) else 0) + TotalWhere(ts[1..], p, col)
  }

  /** A sum over no qualifying talk is zero. */
  lemma {:induction false} TotalWhereNone(ts: seq<Talk>, p: Talk -> bool, col: Talk -> int)
    requires forall i :: 0 <= i < |ts| ==> !p(ts[i])
    ensures TotalWhere(ts, p, col) == 0
  {
    if |ts| > 0 {
      TotalWhereNone(ts[1..], p, col);
    }
  }

  /** The row the mapper builds for one speaker's group. */
  function RowOf(talks: seq<Talk>, year: Option<int>, strategy: Strategy, sp: Speaker): (r: InfluenceRow)
    ensures r.speakerId == sp.id && r.name == sp.name
    ensures r.score == strategy(r.totalViews, r.totalLikes)
  {
    var v := TotalWhere(talks, InGroup(sp.id, year), Views);
    var l := TotalWhere(talks, InGroup(sp.id, year), Likes);
    InfluenceRow(sp.id, sp.name, v, l, strategy(v, l))
  }

  /** A speaker survives the inner join only with a talk in the filter. */
  function Joined(talks: seq<Talk>, year: Option<int>): Speaker -> bool {
    (sp: Speaker) => Count(talks, InGroup(sp.id, year)) > 0
  }

  /** The rows of the given speakers, in their order. */
  function RowsOf(talks: seq<Talk>, year: Option<int>, strategy: Strategy, sps: seq<Speaker>): (r: seq<InfluenceRow>)
    ensures |r| == |sps|
    ensures forall i :: 0 <= i < |sps| ==> r[i] == RowOf(talks, year, strategy, sps[i])
  {
    if |sps| == 0 then [] else [RowOf(talks, year, strategy, sps[0])] + RowsOf(talks, year, strategy, sps[1..])
  }

  /** The grouped query: one row per speaker with at least one talk that
      passes the filter. */
  function Aggregate(speakers: seq<Speaker>, talks: seq<Talk>, year: Option<int>, strategy: Strategy)
    : (r: seq<InfluenceRow>)
    ensures |r| == Count(speakers, Joined(talks, year))
  {
    CountIsFilterLength(speakers, Joined(talks, year));
    RowsOf(talks, year, strategy, Filter(speakers, Joined(talks, year)))
  }

  /** A row is in the result exactly when it is the group row of a listed
      speaker with a talk in the filter. */
  lemma AggregateRowsIff(speakers: seq<Speaker>, talks: seq<Talk>, year: Option<int>, strategy: Strategy, x: InfluenceRow)
    ensures x in Aggregate(speakers, talks, year, strategy) <==>
              exists sp :: sp in speakers && Joined(talks, year)(sp) && x == RowOf(talks, year, strategy, sp)
  {
    var sel := Filter(speakers, Joined(talks, year));
    var r := Aggregate(speakers, talks, year, strategy);
    if x in r {
      var i :| 0 <= i < |r| && r[i] == x;
      assert sel[i] in speakers;
    }
    if exists sp :: sp in speakers && Joined(talks, year)(sp) && x == RowOf(talks, year, strategy, sp) {
      var sp :| sp in speakers && Joined(talks, year)(sp) && x == RowOf(talks, year, strategy, sp);
      var k :| 0 <= k < |speakers| && speakers[k] == sp;
      assert sp in sel;
      var i :| 0 <= i < |sel| && sel[i] == sp;
      assert r[i] == x;
    }
  }

  function RowId(r: InfluenceRow): int {
    r.speakerId
  }

  /** With distinct speaker ids (the table's primary key), no speaker gets
      two rows. */
  lemma AggregateDistinct(speakers: seq<Speaker>, talks: seq<Talk>, year: Option<int>, strategy: Strategy)
    requires Distinct(speakers, IdOf)
    ensures Distinct(Aggregate(speakers, talks, year, strategy), RowId)
  {
    var sel := Filter(speakers, Joined(talks, year));
    FilterKeepsDistinct(speakers, Joined(talks, year), IdOf);
    var r := Aggregate(speakers, talks, year, strategy);
    forall i, j | 0 <= i < j < |r|
      ensures RowId(r[i]) != RowId(r[j])
    {
      assert IdOf(sel[i]) != IdOf(sel[j]);
    }
  }

  /** The result is empty exactly when no talk of a listed speaker passes
      the filter; the strategy is then never consulted. */
  lemma AggregateEmptyIff(speakers: seq<Speaker>, talks: seq<Talk>, year: Option<int>, strategy: Strategy)
    ensures Aggregate(speakers, talks, year, strategy) == [] <==>
              forall i, j :: 0 <= i < |speakers| && 0 <= j < |talks| ==> !InGroup(speakers[i].id, year)(talks[j])
  {
    var joined := Joined(talks, year);
    assert Aggregate(speakers, talks, year, strategy) == [] <==> Count(speakers, joined) == 0;
    forall i | 0 <= i < |speakers|
      ensures joined(speakers[i]) <==> exists j :: 0 <= j < |talks| && InGroup(speakers[i].id, year)(talks[j])
    {
    }
  }

  // ---------------------------------------------------------------------
  // Conservation of the sums
  // ---------------------------------------------------------------------

  /** Talks of a speaker id in `ids` that pass the filter. */
  function InAnyGroup(ids: set<int>, year: Option<int>): Talk -> bool {
    (t: Talk) => t.speakerId in ids && InYear(year, t)
  }

  /** The ids of a speaker list. */
  function Ids(speakers: seq<Speaker>): set<int> {
    if |speakers| == 0 then {} else {speakers[0].id} + Ids(speakers[1..])
  }

  lemma {:induction false} IdsMember(speakers: seq<Speaker>, id: int)
    ensures id in Ids(speakers) <==> exists k :: 0 <= k < |speakers| && speakers[k].id == id
  {
    if |speakers| > 0 {
      IdsMember(speakers[1..], id);
      if id in Ids(speakers[1..]) {
        var k :| 0 <= k < |speakers[1..]| && speakers[1..][k].id == id;
        assert speakers[k + 1].id == id;
      }
      if exists k :: 0 <= k < |speakers| && speakers[k].id == id {
        var k :| 0 <= k < |speakers| && speakers[k].id == id;
        if k > 0 {
          assert speakers[1..][k - 1].id == id;
        }
      }
    }
  }

  /** A sum over one speaker plus others splits into the two sums. */
  lemma {:induction false} TotalSplit(ts: seq<Talk>, id: int, ids: set<int>, year: Option<int>, col: Talk -> int)
    requires id !in ids
    ensures TotalWhere(ts, InAnyGroup({id} + ids, year), col)
            == TotalWhere(ts, InGroup(id, year), col) + TotalWhere(ts, InAnyGroup(ids, year), col)
  {
    if |ts| > 0 {
      TotalSplit(ts[1..], id, ids, year, col);
    }
  }

  function RowViews(r: InfluenceRow): int {
    r.totalViews
  }

  function RowLikes(r: InfluenceRow): int {
    r.totalLikes
  }

  /** The two summed columns of the grouped query. */
  datatype Total = ViewsTotal | LikesTotal

  /** The talk column a total sums. */
  function TalkColumn(c: Total): Talk -> int {
    match c
    case ViewsTotal => Views
    case LikesTotal => Likes
  }

  /** The row field that holds a total. */
  function RowColumn(c: Total): InfluenceRow -> int {
    match c
    case ViewsTotal => RowViews
    case LikesTotal => RowLikes
  }

  /** Sum of one numeric column over the rows. */
  function SumRows(rows: seq<InfluenceRow>, col: InfluenceRow -> int): int {
    if |rows| == 0 then 0 else col(rows[0]) + SumRows(rows[1..], col)
  }

  lemma RowsOfCons(talks: seq<Talk>, year: Option<int>, strategy: Strategy, sp: Speaker, sps: seq<Speaker>)
    ensures RowsOf(talks, year, strategy, [sp] + sps)
            == [RowOf(talks, year, strategy, sp)] + RowsOf(talks, year, strategy, sps)
  {
    assert ([sp] + sps)[1..] == sps;
  }

  /** Dropping the head of a list with distinct ids leaves distinct ids,
      none of them the head's. */
  lemma DistinctTail(speakers: seq<Speaker>)
    requires |speakers| > 0 && Distinct(speakers, IdOf)
    ensures Distinct(speakers[1..], IdOf)
    ensures speakers[0].id !in Ids(speakers[1..])
  {
    var tail := speakers[1..];
    forall i, j | 0 <= i < j < |tail|
      ensures IdOf(tail[i]) != IdOf(tail[j])
    {
      assert tail[i] == speakers[i + 1] && tail[j] == speakers[j + 1];
    }
    IdsMember(tail, speakers[0].id);
  }

  /** A group row holds its speaker's filtered sum of each column. */
  lemma RowTotal(talks: seq<Talk>, year: Option<int>, strategy: Strategy, sp: Speaker, c: Total)
    ensures RowColumn(c)(RowOf(talks, year, strategy, sp)) == TotalWhere(talks, InGroup(sp.id, year), TalkColumn(c))
  {
  }

  /** The totals of all rows add up to the sum over every filtered talk
      whose speaker exists: given distinct speaker ids, the grouping loses
      nothing and counts nothing twice. */
  lemma {:induction false} AggregateConserves(speakers: seq<Speaker>, talks: seq<Talk>, year: Option<int>, strategy: Strategy, c: Total)
    requires Distinct(speakers, IdOf)
    ensures SumRows(Aggregate(speakers, talks, year, strategy), RowColumn(c))
            == TotalWhere(talks, InAnyGroup(Ids(speakers), year), TalkColumn(c))
  {
    if |speakers| == 0 {
      TotalWhereNone(talks, InAnyGroup({}, year), TalkColumn(c));
    } else {
      var sp, tail := speakers[0], speakers[1..];
      var joined := Joined(talks, year);
      DistinctTail(speakers);
      AggregateConserves(tail, talks, year, strategy, c);
      assert Ids(speakers) == {sp.id} + Ids(tail);
      TotalSplit(talks, sp.id, Ids(tail), year, TalkColumn(c));
      var rest := Filter(tail, joined);
      if joined(sp) {
        assert Filter(speakers, joined) == [sp] + rest;
        RowsOfCons(talks, year, strategy, sp, rest);
        var r := RowsOf(talks, year, strategy, [sp] + rest);
        assert r[1..] == RowsOf(talks, year, strategy, rest);
        RowTotal(talks, year, strategy, sp, c);
      } else {
        assert Filter(speakers, joined) == rest;
        TotalWhereNone(talks, InGroup(sp.id, year), TalkColumn(c));
      }
    }
  }

  /** `SUM(t.views)`: the rows' view totals add up to the filtered views. */
  lemma AggregateConservesViews(speakers: seq<Speaker>, talks: seq<Talk>, year: Option<int>, strategy: Strategy)
    requires Distinct(speakers, IdOf)
    ensures SumRows(Aggregate(speakers, talks, year, strategy), RowViews)
            == TotalWhere(talks, InAnyGroup(Ids(speakers), year), Views)
  {
    AggregateConserves(speakers, talks, year, strategy, ViewsTotal);
  }

  /** `SUM(t.likes)`: the rows' like totals add up to the filtered likes. */
  lemma AggregateConservesLikes(speakers: seq<Speaker>, talks: seq<Talk>, year: Option<int>, strategy: Strategy)
    requires Distinct(speakers, IdOf)
    ensures SumRows(Aggregate(speakers, talks, year, strategy), RowLikes)
            == TotalWhere(talks, InAnyGroup(Ids(speakers), year), Likes)
  {
    AggregateConserves(speakers, talks, year, strategy, LikesTotal);
  }

  // ---------------------------------------------------------------------
  // Ranking
  // ---------------------------------------------------------------------

  /** Scores never increase along the list. */
  predicate ByScoreDesc(rows: seq<InfluenceRow>) {
    forall i, j :: 0 <= i < j < |rows| ==> rows[i].score >= rows[j].score
  }

  /** Places `x` after the rows that score strictly more and ahead of the
      rest. */
  function InsertByScore(x: InfluenceRow, rows: seq<InfluenceRow>): seq<InfluenceRow> {
    if |rows| == 0 || rows[0].score <= x.score then [x] + rows
    else [rows[0]] + InsertByScore(x, rows[1..])
  }

  lemma {:induction false} InsertByScorePerm(x: InfluenceRow, rows: seq<InfluenceRow>)
    ensures multiset(InsertByScore(x, rows)) == multiset(rows) + multiset{x}
  {
    if |rows| > 0 && rows[0].score > x.score {
      InsertByScorePerm(x, rows[1..]);
      assert rows == [rows[0]] + rows[1..];
    }
  }

  lemma {:induction false} InsertByScoreSorted(x: InfluenceRow, rows: seq<InfluenceRow>)
    requires ByScoreDesc(rows)
    ensures ByScoreDesc(InsertByScore(x, rows))
  {
    var r := InsertByScore(x, rows);
    if |rows| == 0 || rows[0].score <= x.score {
      forall i, j | 0 <= i < j < |r|
        ensures r[i].score >= r[j].score
      {
        assert r[j] == rows[j - 1];
        if i > 0 {
          assert r[i] == rows[i - 1];
        }
      }
    } else {
      var rest := InsertByScore(x, rows[1..]);
      InsertByScoreSorted(x, rows[1..]);
      forall k | 0 <= k < |rows[1..]|
        ensures rows[1..][k].score <= rows[0].score
      {
        assert rows[1..][k] == rows[k + 1];
      }
      InsertByScoreBelow(x, rows[1..], rows[0].score);
      forall i, j | 0 <= i < j < |r|
        ensures r[i].score >= r[j].score
      {
        assert r[j] == rest[j - 1];
        if i > 0 {
          assert r[i] == rest[i - 1];
        }
      }
    }
  }

  /** Inserting keeps every score under a bound that all rows and the new
      one respect. */
  lemma {:induction false} InsertByScoreBelow(x: InfluenceRow, rows: seq<InfluenceRow>, bound: real)
    requires x.score <= bound
    requires forall k :: 0 <= k < |rows| ==> rows[k].score <= bound
    ensures forall k :: 0 <= k < |InsertByScore(x, rows)| ==> InsertByScore(x, rows)[k].score <= bound
  {
    var r := InsertByScore(x, rows);
    if |rows| == 0 || rows[0].score <= x.score {
      forall k | 0 <= k < |r|
        ensures r[k].score <= bound
      {
        if k > 0 {
          assert r[k] == rows[k - 1];
        }
      }
    } else {
      var rest := InsertByScore(x, rows[1..]);
      forall k | 0 <= k < |rows[1..]|
        ensures rows[1..][k].score <= bound
      {
        assert rows[1..][k] == rows[k + 1];
      }
      InsertByScoreBelow(x, rows[1..], bound);
      forall k | 0 <= k < |r|
        ensures r[k].score <= bound
      {
        if k > 0 {
          assert r[k] == rest[k - 1];
        }
      }
    }
  }

  /** `sorted(comparing(getScore).reversed())`: a stable sort, highest
      score first. */
  function SortByScore(rows: seq<InfluenceRow>): (r: seq<InfluenceRow>)
    ensures multiset(r) == multiset(rows)
    ensures ByScoreDesc(r)
  {
    if |rows| == 0 then []
    else
      var sorted := SortByScore(rows[1..]);
      InsertByScorePerm(rows[0], sorted);
      InsertByScoreSorted(rows[0], sorted);
      assert rows == [rows[0]] + rows[1..];
      InsertByScore(rows[0], sorted)
  }

  function ScoredAt(c: real): InfluenceRow -> bool {
    (r: InfluenceRow) => r.score == c
  }

  lemma {:induction false} InsertByScoreStable(x: InfluenceRow, rows: seq<InfluenceRow>, c: real)
    ensures Filter(InsertByScore(x, rows), ScoredAt(c))
            == (if x.score == c then [x] else []) + Filter(rows, ScoredAt(c))
  {
    if |rows| == 0 || rows[0].score <= x.score {
      assert ([x] + rows)[1..] == rows;
    } else {
      var rest := InsertByScore(x, rows[1..]);
      InsertByScoreStable(x, rows[1..], c);
      assert ([rows[0]] + rest)[1..] == rest;
    }
  }

  /** The sort is stable: rows of equal score keep their relative order. */
  lemma {:induction false} SortByScoreStable(rows: seq<InfluenceRow>, c: real)
    ensures Filter(SortByScore(rows), ScoredAt(c)) == Filter(rows, ScoredAt(c))
  {
    if |rows| > 0 {
      SortByScoreStable(rows[1..], c);
      InsertByScoreStable(rows[0], SortByScore(rows[1..]), c);
    }
  }

  /** `analyzeInfluence(year)`: the aggregated rows, highest score first. */
  function AnalyzeInfluence(db: Db, year: Option<int>, strategy: Strategy): (r: seq<InfluenceRow>)
    ensures multiset(r) == multiset(Aggregate(db.speakers.rows, db.talks.rows, year, strategy))
    ensures ByScoreDesc(r)
  {
    SortByScore(Aggregate(db.speakers.rows, db.talks.rows, year, strategy))
  }

  /** Every ranked row is the group row of a speaker with a talk in the
      filter, and every such speaker is ranked. */
  lemma AnalyzeInfluenceRows(db: Db, year: Option<int>, strategy: Strategy, x: InfluenceRow)
    ensures x in AnalyzeInfluence(db, year, strategy) <==>
              exists sp :: sp in db.speakers.rows && Joined(db.talks.rows, year)(sp)
                             && x == RowOf(db.talks.rows, year, strategy, sp)
  {
    var agg := Aggregate(db.speakers.rows, db.talks.rows, year, strategy);
    var r := AnalyzeInfluence(db, year, strategy);
    AggregateRowsIff(db.speakers.rows, db.talks.rows, year, strategy, x);
    assert x in r <==> x in multiset(r);
    assert x in agg <==> x in multiset(agg);
  }

  // ---------------------------------------------------------------------
  // The most influential speaker
  // ---------------------------------------------------------------------

  /** Index `Stream.max` settles on: it keeps the running maximum unless a
      later row scores strictly more, so ties go to the earliest row; -1
      for no rows. */
  function MaxIndex(rows: seq<InfluenceRow>): (k: int)
    ensures -1 <= k < |rows|
    ensures k == -1 <==> |rows| == 0
    ensures 0 <= k ==> forall j :: 0 <= j < |rows| ==> rows[j].score <= rows[k].score
    ensures 0 <= k ==> forall j :: 0 <= j < k ==> rows[j].score < rows[k].score
  {
    if |rows| == 0 then -1
    else
      var n := |rows|;
      var m := MaxIndex(rows[..n - 1]);
      assert forall j :: 0 <= j < n - 1 ==> rows[..n - 1][j] == rows[j];
      if m >= 0 && rows[m].score >= rows[n - 1].score then m else n - 1
  }

  /** The first highest-scoring row is the only index with both properties. */
  lemma MaxIndexUnique(rows: seq<InfluenceRow>, k: int)
    requires 0 <= k < |rows|
    requires forall j :: 0 <= j < |rows| ==> rows[j].score <= rows[k].score
    requires forall j :: 0 <= j < k ==> rows[j].score < rows[k].score
    ensures MaxIndex(rows) == k
  {
    var m := MaxIndex(rows);
    assert rows[m].score <= rows[k].score && rows[k].score <= rows[m].score;
  }

  function LeaderOf(r: InfluenceRow): Leader {
    Leader(r.speakerId, r.name, r.score)
  }

  /** `findMostInfluentialSpeaker(year)`. */
  function MostInfluential(db: Db, year: int, strategy: Strategy): (r: Option<Leader>)
    ensures var rows := Aggregate(db.speakers.rows, db.talks.rows, Some(year), strategy);
            && (r.None? <==> rows == [])
            && (r.Some? ==> forall j :: 0 <= j < |rows| ==> rows[j].score <= r.value.score)
  {
    var rows := Aggregate(db.speakers.rows, db.talks.rows, Some(year), strategy);
    var k := MaxIndex(rows);
    if k < 0 then None else Some(LeaderOf(rows[k]))
  }

  /** The leader is the first of the year's rows with the highest score. */
  lemma MostInfluentialIsFirstMax(db: Db, year: int, strategy: Strategy)
    ensures var rows := Aggregate(db.speakers.rows, db.talks.rows, Some(year), strategy);
            var r := MostInfluential(db, year, strategy);
            r.Some? ==> exists k :: 0 <= k < |rows| && r.value == LeaderOf(rows[k])
                          && forall j :: 0 <= j < k ==> rows[j].score < rows[k].score
  {
    var rows := Aggregate(db.speakers.rows, db.talks.rows, Some(year), strategy);
    var k := MaxIndex(rows);
    if k >= 0 {
      assert MostInfluential(db, year, strategy).value == LeaderOf(rows[k]);
    }
  }

  /** The leader's score is the top score of the ranking for that year. */
  lemma LeaderHeadsRanking(db: Db, year: int, strategy: Strategy)
    ensures var ranked := AnalyzeInfluence(db, Some(year), strategy);
            var leader := MostInfluential(db, year, strategy);
            && (leader.None? <==> ranked == [])
            && (leader.Some? ==> leader.value.score == ranked[0].score)
  {
    var rows := Aggregate(db.speakers.rows, db.talks.rows, Some(year), strategy);
    var ranked := AnalyzeInfluence(db, Some(year), strategy);
    var leader := MostInfluential(db, year, strategy);
    var k := MaxIndex(rows);
    assert leader.Some? ==> leader.value == LeaderOf(rows[k]);
    TopOfRanking(rows, ranked, k);
  }

  /** A ranking of the rows starts with a row as good as the best one,
      and is empty exactly when there are no rows. */
  lemma TopOfRanking(rows: seq<InfluenceRow>, ranked: seq<InfluenceRow>, k: int)
    requires multiset(ranked) == multiset(rows) && ByScoreDesc(ranked)
    requires k < 0 <==> rows == []
    requires 0 <= k < |rows| ==> forall j :: 0 <= j < |rows| ==> rows[j].score <= rows[k].score
    ensures ranked == [] <==> rows == []
    ensures 0 <= k < |rows| ==> ranked[0].score == rows[k].score
  {
    assert |ranked| == |multiset(ranked)| == |multiset(rows)| == |rows|;
    if 0 <= k < |rows| {
      assert rows[k] in multiset(ranked);
      assert ranked[0] in multiset(rows);
      var i :| 0 <= i < |ranked| && ranked[i] == rows[k];
      var j :| 0 <= j < |rows| && rows[j] == ranked[0];
      assert ranked[0].score >= ranked[i].score;
    }
  }
}
