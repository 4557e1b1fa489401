/** The `ORDER BY` text of the paged listings: `TalkDao.buildSortClause`
    and `SpeakerDao.buildSortClause`.

    Both walk the requested orders, skip every property their whitelist
    rejects, render the others as `<column> <ASC|DESC>` joined by `", "`, and
    fall back to one default column when nothing is left. They differ in
    the whitelist, the property-to-column mapping and the default. */
module SortClauses {
  import opened Outcomes
  import opened Seqs
  import opened Text
  import opened SortUtil

  /** One rendered key of the clause. */
  datatype Column = Column(name: string, direction: Direction)

  function Term(c: Column): string {
    c.name + " " + DirectionName(c.direction)
  }

  /** The keys joined by `", "`. */
  function Render(cols: seq<Column>): string {
    if |cols| == 0 then ""
    else if |cols| == 1 then Term(cols[0])
    else Term(cols[0]) + ", " + Render(cols[1..])
  }

  lemma {:induction false} RenderSnoc(cols: seq<Column>, c: Column)
    ensures Render(cols + [c]) == if cols == [] then Term(c) else Render(cols) + ", " + Term(c)
  {
    if |cols| > 1 {
      assert (cols + [c])[1..] == cols[1..] + [c];
      RenderSnoc(cols[1..], c);
    } else if |cols| == 1 {
      assert (cols + [c])[1..] == [c];
    }
  }

  /** The columns the loop emits: the accepted orders, mapped, in request
      order. */
  function Columns(orders: seq<Order>, accept: string -> bool, column: string -> string): seq<Column> {
    if |orders| == 0 then []
    else
      var n := |orders|;
      Columns(orders[..n - 1], accept, column)
        + (if accept(orders[n - 1].property) then [ColumnOf(orders[n - 1], column)] else [])
  }

  /** One column per accepted order. */
  lemma {:induction false} ColumnsCount(orders: seq<Order>, accept: string -> bool, column: string -> string)
    ensures |Columns(orders, accept, column)| == Count(orders, Accepted(accept))
  {
    if |orders| > 0 {
      var n := |orders|;
      ColumnsCount(orders[..n - 1], accept, column);
      SnocSplit(orders);
      CountSnoc(orders[..n - 1], orders[n - 1], Accepted(accept));
    }
  }

  function Accepted(accept: string -> bool): Order -> bool {
    (o: Order) => accept(o.property)
  }

  function ColumnOf(o: Order, column: string -> string): Column {
    Column(column(o.property), o.direction)
  }

  function ColumnsOf(orders: seq<Order>, column: string -> string): (r: seq<Column>)
    ensures |r| == |orders|
    ensures forall i :: 0 <= i < |orders| ==> r[i] == ColumnOf(orders[i], column)
  {
    if |orders| == 0 then [] else [ColumnOf(orders[0], column)] + ColumnsOf(orders[1..], column)
  }

  /** The emitted columns are exactly the accepted orders in their order:
      the loop's `continue` drops the rest and reorders nothing. */
  lemma {:induction false} ColumnsKeepOrder(orders: seq<Order>, accept: string -> bool, column: string -> string)
    ensures Columns(orders, accept, column) == ColumnsOf(Filter(orders, Accepted(accept)), column)
  {
    if |orders| > 0 {
      var n := |orders|;
      var init := orders[..n - 1];
      var last := orders[n - 1];
      ColumnsKeepOrder(init, accept, column);
      SnocSplit(orders);
      FilterAppend(init, [last], Accepted(accept));
      assert [last][1..] == [];
      ColumnsOfAppend(Filter(init, Accepted(accept)), Filter([last], Accepted(accept)), column);
    }
  }

  lemma ColumnsOfAppend(a: seq<Order>, b: seq<Order>, column: string -> string)
    ensures ColumnsOf(a + b, column) == ColumnsOf(a, column) + ColumnsOf(b, column)
  {
    var l, r := ColumnsOf(a + b, column), ColumnsOf(a, column) + ColumnsOf(b, column);
    assert |l| == |r|;
    forall i | 0 <= i < |l|
      ensures l[i] == r[i]
    {
      if i < |a| {
        assert (a + b)[i] == a[i];
      } else {
        assert (a + b)[i] == b[i - |a|];
      }
    }
  }

  lemma Assoc(a: string, b: string, c: string)
    ensures a + b + c == a + (b + c)
  {
  }

  /** The clause text: `ORDER BY ` and the columns, or the default one. */
  function Clause(cols: seq<Column>, fallback: Column): (r: string)
    ensures |r| > 9 && r[..9] == "ORDER BY "
  {
    "ORDER BY " + (if cols == [] then Term(fallback) else Render(cols))
  }

  /** The loop of both `buildSortClause` methods, with its `first` flag and
      string builder. `Sort.isSorted()` is false only for an empty sort,
      for which the loop body never runs, so both branches of the source end
      in the default column. */
  method BuildSortClause(orders: seq<Order>, accept: string -> bool, column: string -> string, fallback: Column)
    returns (clause: string)
    ensures clause == Clause(Columns(orders, accept, column), fallback)
  {
    clause := "ORDER BY ";
    var first := true;
    var i := 0;
    while i < |orders|
      invariant 0 <= i <= |orders|
      invariant first <==> |Columns(orders[..i], accept, column)| == 0
      invariant clause == "ORDER BY " + Render(Columns(orders[..i], accept, column))
    {
      var property := orders[i].property;
      ghost var before := Columns(orders[..i], accept, column);
      ColumnsStep(orders, i, accept, column);
      if accept(property) {
        if !first {
          clause := clause + ", ";
        } else {
          assert "ORDER BY " + Render(before) + "" == clause;
        }
        // columnName, " " and the direction's name
        var key := ColumnOf(orders[i], column);
        clause := clause + Term(key);
        first := false;
        AppendTerm(before, key);
      } else {
        assert before + [] == before;
      }
      i := i + 1;
    }
    if first {
      clause := clause + Term(fallback);
    }
    assert orders[..|orders|] == orders;
  }

  /** One more order adds its column exactly when it is accepted. */
  lemma ColumnsStep(orders: seq<Order>, i: int, accept: string -> bool, column: string -> string)
    requires 0 <= i < |orders|
    ensures Columns(orders[..i + 1], accept, column)
            == Columns(orders[..i], accept, column)
               + (if accept(orders[i].property) then [ColumnOf(orders[i], column)] else [])
  {
    assert orders[..i + 1][..i] == orders[..i];
  }

  /** The text grows by the separator, if any, and the new term. */
  lemma AppendTerm(cols: seq<Column>, key: Column)
    ensures "ORDER BY " + Render(cols) + (if |cols| == 0 then "" else ", ") + Term(key)
            == "ORDER BY " + Render(cols + [key])
  {
    RenderSnoc(cols, key);
    var sep := if |cols| == 0 then "" else ", ";
    Assoc("ORDER BY ", Render(cols), sep);
    Assoc("ORDER BY ", Render(cols) + sep, Term(key));
    if |cols| == 0 {
      assert Render(cols) + sep == "";
    }
  }

  // ---------------------------------------------------------------------
  // Reading a clause back
  // ---------------------------------------------------------------------

  /** A column name that cannot be confused with the clause's separators. */
  predicate Plain(name: string) {
    |name| > 0 && forall i :: 0 <= i < |name| ==> name[i] != ' ' && name[i] != ','
  }

  /** The exact direction names. */
  function DirectionNamed(s: string): Option<Direction> {
    if s == "ASC" then Some(Asc) else if s == "DESC" then Some(Desc) else None
  }

  /** `<name> <direction>`. */
  function ParseTerm(t: string): Option<Column> {
    var k := FirstIndex(t, IsChar(' '));
    if k <= 0 then None
    else
      match DirectionNamed(t[k + 1..])
      case None => None
      case Some(d) => Some(Column(t[..k], d))
  }

  /** Terms separated by `", "`. */
  function ParseTerms(s: string): Option<seq<Column>>
    decreases |s|
  {
    var k := FirstIndex(s, IsChar(','));
    if k < 0 then
      match ParseTerm(s)
      case None => None
      case Some(c) => Some([c])
    else if k + 1 < |s| && s[k + 1] == ' ' then
      match ParseTerm(s[..k])
      case None => None
      case Some(c) =>
        match ParseTerms(s[k + 2..])
        case None => None
        case Some(cs) => Some([c] + cs)
    else None
  }

  /** The columns an `ORDER BY` text lists. */
  function ParseClause(s: string): Option<seq<Column>> {
    if |s| >= 9 && s[..9] == "ORDER BY " then ParseTerms(s[9..]) else None
  }

  /** A term of a plain column has no comma. */
  lemma TermHasNoComma(c: Column)
    requires Plain(c.name)
    ensures forall i :: 0 <= i < |Term(c)| ==> Term(c)[i] != ','
  {
    var t := Term(c);
    forall i | 0 <= i < |t|
      ensures t[i] != ','
    {
      if i < |c.name| {
        assert t[i] == c.name[i];
      } else if i == |c.name| {
        assert t[i] == ' ';
      } else {
        assert t[i] == DirectionName(c.direction)[i - |c.name| - 1];
      }
    }
  }

  lemma ParseTermOf(c: Column)
    requires Plain(c.name)
    ensures ParseTerm(Term(c)) == Some(c)
  {
    var name := DirectionName(c.direction);
    var t := Term(c);
    assert t == c.name + (" " + name);
    FirstIndexAt(c.name, " " + name, IsChar(' '));
    assert t[|c.name| + 1..] == name;
    assert t[..|c.name|] == c.name;
  }

  /** Rendering plain columns and reading them back gives them back: the
      text lists exactly these columns, in this order. */
  lemma {:induction false} ParseRender(cols: seq<Column>)
    requires |cols| >= 1
    requires forall i :: 0 <= i < |cols| ==> Plain(cols[i].name)
    ensures ParseTerms(Render(cols)) == Some(cols)
  {
    var c := cols[0];
    ParseTermOf(c);
    TermHasNoComma(c);
    ConsSplit(cols);
    if |cols| == 1 {
      ParseTermsOne(Term(c), c);
      assert cols[1..] == [];
      assert [c] + cols[1..] == [c];
    } else {
      ParseRender(cols[1..]);
      ParseTermsCons(Term(c), Render(cols[1..]), c, cols[1..]);
    }
  }

  /** A term without a comma reads as one column. */
  lemma ParseTermsOne(t: string, c: Column)
    requires forall i :: 0 <= i < |t| ==> t[i] != ','
    requires ParseTerm(t) == Some(c)
    ensures ParseTerms(t) == Some([c])
  {
    NoMatchNoIndex(t, IsChar(','));
  }

  /** A term without a comma, `", "` and a readable rest read as the term's
      column followed by the rest's. */
  lemma ParseTermsCons(t: string, rest: string, c: Column, cs: seq<Column>)
    requires forall i :: 0 <= i < |t| ==> t[i] != ','
    requires ParseTerm(t) == Some(c) && ParseTerms(rest) == Some(cs)
    ensures ParseTerms(t + ", " + rest) == Some([c] + cs)
  {
    SeparatedParts(t, rest);
    Assoc(t, ", ", rest);
    FirstIndexAt(t, ", " + rest, IsChar(','));
  }

  lemma SeparatedParts(t: string, rest: string)
    ensures var s := t + ", " + rest;
            && |s| == |t| + 2 + |rest| && s[|t| + 1] == ' '
            && s[..|t|] == t && s[|t| + 2..] == rest
  {
    var s := t + ", " + rest;
    assert s[|t| + 1] == ", "[1];
    forall i | 0 <= i < |t| ensures s[i] == t[i] {
    }
    assert s[..|t|] == t;
    forall i | 0 <= i < |rest| ensures s[|t| + 2 + i] == rest[i] {
    }
    assert s[|t| + 2..] == rest;
  }

  /** The clause lists the emitted columns, or the default one alone. */
  lemma ParseClauseOf(cols: seq<Column>, fallback: Column)
    requires Plain(fallback.name)
    requires forall i :: 0 <= i < |cols| ==> Plain(cols[i].name)
    ensures ParseClause(Clause(cols, fallback)) == Some(if cols == [] then [fallback] else cols)
  {
    var body := if cols == [] then Term(fallback) else Render(cols);
    assert Clause(cols, fallback)[9..] == body;
    if cols == [] {
      ParseRender([fallback]);
    } else {
      ParseRender(cols);
    }
  }

  /** Every emitted column name has a property `good` has whenever the
      mapping of an accepted property has it. */
  lemma {:induction false} ColumnsSatisfy(orders: seq<Order>, accept: string -> bool, column: string -> string,
                                          good: string -> bool)
    requires forall p :: accept(p) ==> good(column(p))
    ensures forall i :: 0 <= i < |Columns(orders, accept, column)| ==> good(Columns(orders, accept, column)[i].name)
  {
    if |orders| > 0 {
      ColumnsSatisfy(orders[..|orders| - 1], accept, column, good);
    }
  }

  /** When the mapping of every accepted property is plain, the clause
      reads back as the accepted orders, mapped, in request order, or as
      the default column alone. */
  lemma ClauseLists(orders: seq<Order>, accept: string -> bool, column: string -> string, fallback: Column)
    requires Plain(fallback.name)
    requires forall p :: accept(p) ==> Plain(column(p))
    ensures var cols := ColumnsOf(Filter(orders, Accepted(accept)), column);
            ParseClause(Clause(Columns(orders, accept, column), fallback)) == Some(if cols == [] then [fallback] else cols)
  {
    ColumnsKeepOrder(orders, accept, column);
    ColumnsSatisfy(orders, accept, column, Plain);
    ParseClauseOf(Columns(orders, accept, column), fallback);
  }

  // ---------------------------------------------------------------------
  // TalkDao
  // ---------------------------------------------------------------------

  /** `TalkDao.isValidSortProperty`: an exact, case-sensitive whitelist. */
  predicate IsValidTalkSortProperty(p: string) {
    p in ["id", "title", "date", "views", "likes", "link", "speakerId"]
  }

  /** `TalkDao.mapPropertyToColumn`. */
  function MapPropertyToColumn(p: string): (r: string)
    ensures r == "speaker_id" || r == p
    ensures r == "speaker_id" && p != "speaker_id" ==> EqualsIgnoreCase("speakerId", p)
  {
    if EqualsIgnoreCase("speakerId", p) then "speaker_id" else p
  }

  /** The talk table's sortable columns. */
  predicate IsTalkColumn(c: string) {
    c in ["id", "title", "date", "views", "likes", "link", "speaker_id"]
  }

  /** On the whitelist only `speakerId` is renamed; everything else is
      emitted verbatim, and the result is always a column of the table. */
  lemma TalkPropertyColumn(p: string)
    requires IsValidTalkSortProperty(p)
    ensures MapPropertyToColumn(p) == (if p == "speakerId" then "speaker_id" else p)
    ensures IsTalkColumn(MapPropertyToColumn(p)) && Plain(MapPropertyToColumn(p))
  {
    assert EqualsIgnoreCase("speakerId", "speakerId");
  }

  function TalkColumns(orders: seq<Order>): seq<Column> {
    Columns(orders, IsValidTalkSortProperty, MapPropertyToColumn)
  }

  /** `TalkDao.buildSortClause(sort)`. */
  function TalkSortClause(orders: seq<Order>): (r: string)
    ensures |r| > 9 && r[..9] == "ORDER BY "
  {
    Clause(TalkColumns(orders), Column("title", Asc))
  }

  method BuildTalkSortClause(orders: seq<Order>) returns (clause: string)
    ensures clause == TalkSortClause(orders)
  {
    clause := BuildSortClause(orders, IsValidTalkSortProperty, MapPropertyToColumn, Column("title", Asc));
  }

  /** Only columns of the talk table reach the `ORDER BY` text: it lists
      the whitelisted orders, mapped, in request order, or `title ASC`. */
  lemma TalkSortClauseLists(orders: seq<Order>)
    ensures var cols := ColumnsOf(Filter(orders, Accepted(IsValidTalkSortProperty)), MapPropertyToColumn);
            ParseClause(TalkSortClause(orders)) == Some(if cols == [] then [Column("title", Asc)] else cols)
    ensures forall i :: 0 <= i < |TalkColumns(orders)| ==> IsTalkColumn(TalkColumns(orders)[i].name)
  {
    forall p | IsValidTalkSortProperty(p)
      ensures Plain(MapPropertyToColumn(p)) && IsTalkColumn(MapPropertyToColumn(p))
    {
      TalkPropertyColumn(p);
    }
    assert Plain("title");
    ClauseLists(orders, IsValidTalkSortProperty, MapPropertyToColumn, Column("title", Asc));
    ColumnsSatisfy(orders, IsValidTalkSortProperty, MapPropertyToColumn, IsTalkColumn);
  }

  /** Without a whitelisted property the clause is `ORDER BY title ASC`. */
  lemma TalkSortClauseDefault(orders: seq<Order>)
    requires forall i :: 0 <= i < |orders| ==> !IsValidTalkSortProperty(orders[i].property)
    ensures TalkSortClause(orders) == "ORDER BY title ASC"
  {
    ColumnsCount(orders, IsValidTalkSortProperty, MapPropertyToColumn);
  }

  // ---------------------------------------------------------------------
  // SpeakerDao
  // ---------------------------------------------------------------------

  /** `SpeakerDao.isValidSortProperty` as written: `equalsIgnoreCase`
      against `id` and `name`, which Java's case mapping also satisfies
      with a dotless i or a dotted capital I in place of the i. */
  predicate SpeakerSortableAsWritten(p: string) {
    EqualsIgnoreCase(p, "id") || EqualsIgnoreCase(p, "name")
  }

  /** ASCII-only lower case. */
  function AsciiLower(c: char): char {
    if 'A' <= c <= 'Z' then (c as int + 32) as char else c
  }

  /** Equal up to the case of ASCII letters. */
  predicate AsciiEqualsIgnoreCase(a: string, b: string) {
    |a| == |b| && forall i :: 0 <= i < |a| ==> AsciiLower(a[i]) == AsciiLower(b[i])
  }

  /** The whitelist as intended: `id` or `name` in any ASCII casing. */
  predicate IsValidSpeakerSortProperty(p: string) {
    AsciiEqualsIgnoreCase(p, "id") || AsciiEqualsIgnoreCase(p, "name")
  }

  function Verbatim(p: string): string {
    p
  }

  /** Every character is an ASCII letter. */
  predicate AsciiLetters(s: string) {
    forall i :: 0 <= i < |s| ==> 'a' <= s[i] <= 'z' || 'A' <= s[i] <= 'Z'
  }

  /** An accepted property is `id` or `name` spelled in ASCII letters. */
  lemma SpeakerPropertyIsAscii(p: string)
    requires IsValidSpeakerSortProperty(p)
    ensures AsciiLetters(p) && Plain(p)
  {
    forall i | 0 <= i < |p|
      ensures 'a' <= p[i] <= 'z' || 'A' <= p[i] <= 'Z'
    {
      if AsciiEqualsIgnoreCase(p, "id") {
        assert AsciiLower(p[i]) == "id"[i];
      } else {
        assert AsciiLower(p[i]) == "name"[i];
      }
    }
  }

  /** On ASCII text the intended whitelist and the written one agree, so
      the correction only changes what non-ASCII properties do. */
  lemma SpeakerWhitelistsAgreeOnAscii(p: string)
    requires forall i :: 0 <= i < |p| ==> p[i] < '\U{80}'
    ensures IsValidSpeakerSortProperty(p) <==> SpeakerSortableAsWritten(p)
  {
    LowerWordAgrees(p, "id");
    LowerWordAgrees(p, "name");
  }

  /** Against a word of small ASCII letters, both comparisons agree on
      ASCII text. */
  lemma LowerWordAgrees(p: string, w: string)
    requires forall i :: 0 <= i < |p| ==> p[i] < '\U{80}'
    requires forall i :: 0 <= i < |w| ==> 'a' <= w[i] <= 'z'
    ensures EqualsIgnoreCase(p, w) <==> AsciiEqualsIgnoreCase(p, w)
  {
    forall i | 0 <= i < |p| && |p| == |w|
      ensures SameIgnoringCase(p[i], w[i]) <==> AsciiLower(p[i]) == AsciiLower(w[i])
    {
      LowerCharAgrees(p[i], w[i]);
    }
  }

  lemma LowerCharAgrees(c: char, w: char)
    requires c < '\U{80}' && 'a' <= w <= 'z'
    ensures SameIgnoringCase(c, w) <==> AsciiLower(c) == AsciiLower(w)
  {
  }

  function SpeakerColumns(orders: seq<Order>): seq<Column> {
    Columns(orders, IsValidSpeakerSortProperty, Verbatim)
  }

  /** `SpeakerDao.buildSortClause(sort)`, with the ASCII whitelist. */
  function SpeakerSortClause(orders: seq<Order>): (r: string)
    ensures |r| > 9 && r[..9] == "ORDER BY "
  {
    Clause(SpeakerColumns(orders), Column("name", Asc))
  }

  /** `SpeakerDao.buildSortClause(sort)` with the whitelist as written. */
  function SpeakerSortClauseAsWritten(orders: seq<Order>): (r: string)
    ensures |r| > 9 && r[..9] == "ORDER BY "
  {
    Clause(Columns(orders, SpeakerSortableAsWritten, Verbatim), Column("name", Asc))
  }

  method BuildSpeakerSortClause(orders: seq<Order>) returns (clause: string)
    ensures clause == SpeakerSortClause(orders)
  {
    clause := BuildSortClause(orders, IsValidSpeakerSortProperty, Verbatim, Column("name", Asc));
  }

  /** The speaker clause lists the accepted orders in the caller's casing,
      in request order, or `name ASC`; every listed column is `id` or
      `name` in ASCII letters. */
  lemma SpeakerSortClauseLists(orders: seq<Order>)
    ensures var cols := ColumnsOf(Filter(orders, Accepted(IsValidSpeakerSortProperty)), Verbatim);
            ParseClause(SpeakerSortClause(orders)) == Some(if cols == [] then [Column("name", Asc)] else cols)
    ensures forall i :: 0 <= i < |SpeakerColumns(orders)| ==>
              AsciiLetters(SpeakerColumns(orders)[i].name)
              && (AsciiEqualsIgnoreCase(SpeakerColumns(orders)[i].name, "id")
                  || AsciiEqualsIgnoreCase(SpeakerColumns(orders)[i].name, "name"))
  {
    forall p | IsValidSpeakerSortProperty(p)
      ensures Plain(Verbatim(p)) && AsciiLetters(Verbatim(p)) && IsValidSpeakerSortProperty(Verbatim(p))
    {
      SpeakerPropertyIsAscii(p);
    }
    assert Plain("name");
    ClauseLists(orders, IsValidSpeakerSortProperty, Verbatim, Column("name", Asc));
    ColumnsSatisfy(orders, IsValidSpeakerSortProperty, Verbatim, AsciiLetters);
    ColumnsSatisfy(orders, IsValidSpeakerSortProperty, Verbatim, IsValidSpeakerSortProperty);
  }

  /** The dotless small i, U+0131, followed by `d`. */
  const DotlessId: string := "\U{0131}d"

  /** As written, `equalsIgnoreCase` matches the dotless i with `i`, so the
      whitelist passes a property that is not ASCII; the intended
      whitelist refuses it. */
  lemma DotlessIdPasses()
    ensures SpeakerSortableAsWritten(DotlessId) && !AsciiLetters(DotlessId)
    ensures !IsValidSpeakerSortProperty(DotlessId)
  {
    var p := DotlessId;
    assert SameIgnoringCase(p[0], 'i');
    assert EqualsIgnoreCase(p, "id");
    assert !AsciiEqualsIgnoreCase(p, "id");
    assert !('a' <= p[0] <= 'z' || 'A' <= p[0] <= 'Z');
  }

  /** As written, that property reaches the SQL text as a column no table
      has. */
  lemma DotlessIdReachesSql()
    ensures SpeakerSortClauseAsWritten([Order(Asc, DotlessId)]) == "ORDER BY \U{0131}d ASC"
  {
    assert "ORDER BY " + (DotlessId + " " + "ASC") == "ORDER BY \U{0131}d ASC";
    DotlessIdPasses();
    var o := [Order(Asc, DotlessId)];
    assert o[..0] == [];
    assert Columns(o, SpeakerSortableAsWritten, Verbatim) == [Column(DotlessId, Asc)];
  }

  /** The intended whitelist drops it and the clause falls back to the
      default column. */
  lemma DotlessIdDropped()
    ensures SpeakerSortClause([Order(Asc, DotlessId)]) == "ORDER BY name ASC"
  {
    assert "ORDER BY " + ("name" + " " + "ASC") == "ORDER BY name ASC";
    DotlessIdPasses();
    var o := [Order(Asc, DotlessId)];
    assert o[..0] == [];
    assert Columns(o, IsValidSpeakerSortProperty, Verbatim) == [];
  }

  // ---------------------------------------------------------------------
  // From the request parameter to the clause
  // ---------------------------------------------------------------------

  /** A request entry with a lower-case direction. */
  lemma LowerCaseEntry(p: string, d: Direction)
    requires ',' !in p && HasText(p)
    ensures ParseEntry(p + "," + (if d == Asc then "asc" else "desc")) == Use(Order(d, p))
  {
    var dir := if d == Asc then "asc" else "desc";
    assert ',' !in dir;
    SplitPair(p, dir);
    DirectionRoundTrip(d);
  }

  /** A request of one usable entry sorts by that entry alone. */
  lemma SingleEntrySort(entry: string, o: Order)
    requires ParseEntry(entry) == Use(o)
    ensures CreateSort(Some([entry])) == [o]
  {
    assert [entry][1..] == [];
  }

  /** An order on a property the whitelist refuses adds no column. */
  lemma SecondOrderDropped(o: Order, x: Order, accept: string -> bool, column: string -> string)
    requires !accept(x.property)
    ensures Columns([o, x], accept, column) == Columns([o], accept, column)
  {
    assert [o, x][..1] == [o];
  }

  /** `asc` as a property is on neither whitelist. */
  lemma AscIsNoColumn()
    ensures !IsValidTalkSortProperty("asc") && !IsValidSpeakerSortProperty("asc")
  {
  }

  /** The two bare entries `p` and `asc` sort by p, then by a property
      named `asc`. */
  lemma BareThenAsc(p: string)
    requires HasText(p) && ',' !in p
    ensures CreateSort(Some([p, "asc"])) == [Order(Asc, p), Order(Asc, "asc")]
  {
    assert HasText("asc") by {
      assert !IsJavaWhitespace("asc"[0]);
    }
    BareProperties(p, "asc");
  }

  /** Sorting talks by title and then by `asc` is sorting by title. */
  lemma TitleThenAscClause()
    ensures TalkSortClause([Order(Asc, "title"), Order(Asc, "asc")]) == "ORDER BY title ASC"
  {
    AscIsNoColumn();
    SecondOrderDropped(Order(Asc, "title"), Order(Asc, "asc"), IsValidTalkSortProperty, MapPropertyToColumn);
    assert IsValidTalkSortProperty("title") && MapPropertyToColumn("title") == "title";
    SingleOrderClauses(Order(Asc, "title"));
    assert "ORDER BY " + ("title" + " " + "ASC") == "ORDER BY title ASC";
  }

  /** Sorting speakers by name and then by `asc` is sorting by name. */
  lemma NameThenAscClause()
    ensures SpeakerSortClause([Order(Asc, "name"), Order(Asc, "asc")]) == "ORDER BY name ASC"
  {
    AscIsNoColumn();
    SecondOrderDropped(Order(Asc, "name"), Order(Asc, "asc"), IsValidSpeakerSortProperty, Verbatim);
    assert AsciiEqualsIgnoreCase("name", "name");
    SingleOrderClauses(Order(Asc, "name"));
    assert "ORDER BY " + ("name" + " " + "ASC") == "ORDER BY name ASC";
  }

  /** The talk controller's default parameter, `title,asc`, is bound to a
      `String[]` by splitting it at the comma, so `createSort` sees the two
      bare entries `title` and `asc`. The second becomes an order on a
      property `asc`, which is not on the whitelist, so the listing sorts
      by title. */
  lemma DefaultTalkRequest()
    ensures CreateSort(Some(["title", "asc"])) == [Order(Asc, "title"), Order(Asc, "asc")]
    ensures TalkSortClause(CreateSort(Some(["title", "asc"]))) == "ORDER BY title ASC"
  {
    assert HasText("title") by {
      assert !IsJavaWhitespace("title"[0]);
    }
    BareThenAsc("title");
    TitleThenAscClause();
  }

  /** The speaker controller's default parameter, `name,asc`, reaches
      `createSort` as `name` and `asc`; `asc` is not a speaker column, so
      the listing sorts by name. */
  lemma DefaultSpeakerRequest()
    ensures CreateSort(Some(["name", "asc"])) == [Order(Asc, "name"), Order(Asc, "asc")]
    ensures SpeakerSortClause(CreateSort(Some(["name", "asc"]))) == "ORDER BY name ASC"
  {
    assert HasText("name") by {
      assert !IsJavaWhitespace("name"[0]);
    }
    BareThenAsc("name");
    NameThenAscClause();
  }

  lemma SingleOrderClauses(o: Order)
    ensures IsValidTalkSortProperty(o.property) ==>
              TalkSortClause([o]) == "ORDER BY " + Term(ColumnOf(o, MapPropertyToColumn))
    ensures IsValidSpeakerSortProperty(o.property) ==>
              SpeakerSortClause([o]) == "ORDER BY " + Term(ColumnOf(o, Verbatim))
  {
    assert [o][..0] == [];
    if IsValidTalkSortProperty(o.property) {
      var c := ColumnOf(o, MapPropertyToColumn);
      assert Columns([], IsValidTalkSortProperty, MapPropertyToColumn) == [];
      assert TalkColumns([o]) == [] + [c];
      assert [] + [c] == [c];
    }
    if IsValidSpeakerSortProperty(o.property) {
      var c := ColumnOf(o, Verbatim);
      assert Columns([], IsValidSpeakerSortProperty, Verbatim) == [];
      assert SpeakerColumns([o]) == [] + [c];
      assert [] + [c] == [c];
    }
  }

  /** `createSort`'s fallback, `name` ascending, is not a talk property:
      a talk listing whose request falls back is sorted by title. */
  lemma FallbackSortsTalksByTitle()
    ensures TalkSortClause(ByName) == "ORDER BY title ASC"
  {
    assert ByName[..0] == [];
  }
}
