/** `SortUtils.createSort`: turns the `sort` request parameters
    (`"property,direction"` entries) into a Spring `Sort`.

    The parts of Spring and of `java.lang.String` it relies on are modelled
    here: `String.split(",")`, which drops trailing empty parts;
    `Sort.Direction.fromString`, which upper-cases its argument and accepts
    `ASC` or `DESC`; and the `Sort.Order` constructor, which rejects a
    property without text. Any exception falls back to sorting by name. */
module SortUtil {
  import opened Outcomes
  import opened Seqs
  import opened Text

  datatype Direction = Asc | Desc

  /** `Sort.Order`: a direction and a property name. */
  datatype Order = Order(direction: Direction, property: string)

  /** A `Sort` is its orders, first key first. */
  type Sort = seq<Order>

  // ---------------------------------------------------------------------
  // Java case mapping
  // ---------------------------------------------------------------------

  /** `Character.toUpperCase` on ASCII letters and on the two non-ASCII
      characters whose upper case is an ASCII letter (dotless i, long s);
      other characters are left as they are. */
  function UpperChar(c: char): (r: char)
    ensures 'a' <= c <= 'z' ==> 'A' <= r <= 'Z' && r as int == c as int - 32
  {
    if 'a' <= c <= 'z' then (c as int - 32) as char
    else if c == '\U{0131}' then 'I'
    else if c == '\U{017F}' then 'S'
    else c
  }

  /** `Character.toLowerCase` on ASCII letters and on the two non-ASCII
      characters whose lower case is an ASCII letter (capital I with dot,
      Kelvin sign); other characters are left as they are. */
  function LowerChar(c: char): (r: char)
    ensures 'A' <= c <= 'Z' ==> 'a' <= r <= 'z' && r as int == c as int + 32
  {
    if 'A' <= c <= 'Z' then (c as int + 32) as char
    else if c == '\U{0130}' then 'i'
    else if c == '\U{212A}' then 'k'
    else c
  }

  /** The per-character test of `String.equalsIgnoreCase`: equal, equal
      upper cases, or equal lower cases of the upper cases. */
  predicate SameIgnoringCase(a: char, b: char) {
    a == b || UpperChar(a) == UpperChar(b) || LowerChar(UpperChar(a)) == LowerChar(UpperChar(b))
  }

  /** `a.equalsIgnoreCase(b)`. */
  predicate EqualsIgnoreCase(a: string, b: string) {
    |a| == |b| && forall i :: 0 <= i < |a| ==> SameIgnoringCase(a[i], b[i])
  }

  /** `s.toUpperCase(Locale.US)`, character by character. */
  function UpperCase(s: string): (r: string)
    ensures |r| == |s| && forall i :: 0 <= i < |s| ==> r[i] == UpperChar(s[i])
  {
    if |s| == 0 then [] else [UpperChar(s[0])] + UpperCase(s[1..])
  }

  // ---------------------------------------------------------------------
  // Directions
  // ---------------------------------------------------------------------

  /** `Direction.name()`. */
  function DirectionName(d: Direction): string {
    match d
    case Asc => "ASC"
    case Desc => "DESC"
  }

  /** `Sort.Direction.fromString`: the upper-cased text must name a
      direction; anything else throws. */
  function DirectionFromString(s: string): (r: Option<Direction>)
    ensures r.Some? ==> UpperCase(s) == DirectionName(r.value)
  {
    var u := UpperCase(s);
    if u == "ASC" then Some(Asc) else if u == "DESC" then Some(Desc) else None
  }

  /** A direction's own name parses back to it, and so does its lower
      case spelling. */
  lemma DirectionRoundTrip(d: Direction)
    ensures DirectionFromString(DirectionName(d)) == Some(d)
    ensures DirectionFromString(if d == Asc then "asc" else "desc") == Some(d)
  {
    assert UpperCase("ASC") == "ASC";
    assert UpperCase("DESC") == "DESC";
    assert UpperCase("asc") == "ASC";
    assert UpperCase("desc") == "DESC";
  }

  /** A direction is accepted exactly when the upper-cased text names it. */
  lemma DirectionFromStringIff(s: string, d: Direction)
    ensures DirectionFromString(s) == Some(d) <==> UpperCase(s) == DirectionName(d)
  {
  }

  // ---------------------------------------------------------------------
  // String.split(",")
  // ---------------------------------------------------------------------

  function IsChar(x: char): char -> bool {
    (c: char) => c == x
  }

  /** All the `sep`-separated fields of `s`, empty ones included. */
  function Fields(s: string, sep: char): (r: seq<string>)
    ensures |r| >= 1
    ensures forall i :: 0 <= i < |r| ==> sep !in r[i]
    decreases |s|
  {
    var k := FirstIndex(s, IsChar(sep));
    if k < 0 then [s]
    else
      assert forall j :: 0 <= j < k ==> s[..k][j] == s[j];
      [s[..k]] + Fields(s[k + 1..], sep)
  }

  /** The fields joined back with the separator. */
  function JoinWith(xs: seq<string>, sep: char): string {
    if |xs| == 0 then ""
    else if |xs| == 1 then xs[0]
    else xs[0] + [sep] + JoinWith(xs[1..], sep)
  }

  /** Joining the fields restores the text. */
  lemma {:induction false} JoinFields(s: string, sep: char)
    ensures JoinWith(Fields(s, sep), sep) == s
    decreases |s|
  {
    var k := FirstIndex(s, IsChar(sep));
    if k >= 0 {
      JoinFields(s[k + 1..], sep);
      var rest := Fields(s[k + 1..], sep);
      assert Fields(s, sep)[1..] == rest;
      assert s == s[..k] + [sep] + s[k + 1..];
    }
  }

  /** Splitting joined separator-free fields gives them back. */
  lemma {:induction false} FieldsJoin(xs: seq<string>, sep: char)
    requires |xs| >= 1
    requires forall i :: 0 <= i < |xs| ==> sep !in xs[i]
    ensures Fields(JoinWith(xs, sep), sep) == xs
  {
    if |xs| == 1 {
      NoMatchNoIndex(xs[0], IsChar(sep));
    } else {
      var rest := JoinWith(xs[1..], sep);
      var s := xs[0] + [sep] + rest;
      FirstIndexAt(xs[0], [sep] + rest, IsChar(sep));
      assert s == xs[0] + ([sep] + rest);
      assert s[..|xs[0]|] == xs[0];
      assert s[|xs[0]| + 1..] == rest;
      FieldsJoin(xs[1..], sep);
    }
  }

  lemma NoMatchNoIndex<T>(s: seq<T>, p: T -> bool)
    requires forall i :: 0 <= i < |s| ==> !p(s[i])
    ensures FirstIndex(s, p) == -1
  {
  }

  /** The first match is the head of `b` when `a` has none. */
  lemma FirstIndexAt<T>(a: seq<T>, b: seq<T>, p: T -> bool)
    requires forall i :: 0 <= i < |a| ==> !p(a[i])
    requires |b| > 0 && p(b[0])
    ensures FirstIndex(a + b, p) == |a|
  {
    assert (a + b)[|a|] == b[0];
  }

  /** Trailing empty strings removed, as `split` does. */
  function DropTrailingEmpty(xs: seq<string>): (r: seq<string>)
    ensures |r| <= |xs| && r == xs[..|r|]
    ensures |r| == 0 || r[|r| - 1] != ""
    ensures forall i :: |r| <= i < |xs| ==> xs[i] == ""
  {
    if |xs| > 0 && xs[|xs| - 1] == "" then DropTrailingEmpty(xs[..|xs| - 1]) else xs
  }

  /** `s.split(",")`: a text without a comma is its own single part, even
      when empty; otherwise the fields without the trailing empty ones. */
  function Split(s: string): (r: seq<string>)
    ensures forall i :: 0 <= i < |r| ==> ',' !in r[i]
  {
    if ',' !in s then [s] else DropTrailingEmpty(Fields(s, ','))
  }

  /** A separator-free property and a non-empty direction split apart. */
  lemma SplitPair(p: string, q: string)
    requires ',' !in p && ',' !in q && q != ""
    ensures Split(p + "," + q) == [p, q]
  {
    var s := p + "," + q;
    assert s[|p|] == ',';
    assert JoinWith([p, q], ',') == s;
    FieldsJoin([p, q], ',');
  }

  /** A trailing comma adds nothing. */
  lemma SplitTrailingComma(p: string)
    requires ',' !in p && p != ""
    ensures Split(p + ",") == [p]
  {
    var s := p + ",";
    assert s[|p|] == ',';
    assert JoinWith([p, ""], ',') == s;
    FieldsJoin([p, ""], ',');
    assert [p, ""][..1] == [p];
  }

  /** A lone comma has no parts at all; the empty text is one empty part. */
  lemma SplitExamples()
    ensures Split(",") == []
    ensures Split("") == [""]
  {
    assert JoinWith(["", ""], ',') == ",";
    FieldsJoin(["", ""], ',');
  }

  // ---------------------------------------------------------------------
  // createSort
  // ---------------------------------------------------------------------

  /** What one entry contributes: an order, nothing, or an exception. */
  datatype Entry = Use(order: Order) | Skip | Fail

  /** `new Sort.Order(direction, property)`: `Assert.hasText(property)`. */
  function MakeOrder(d: Direction, property: string): (r: Entry)
    ensures r.Use? <==> HasText(property)
    ensures r.Use? ==> r.order == Order(d, property)
  {
    if HasText(property) then Use(Order(d, property)) else Fail
  }

  /** One entry of the loop body. */
  function ParseEntry(s: string): (r: Entry)
    ensures r.Skip? <==> |Split(s)| !in {1, 2}
    ensures r.Use? ==> r.order.property == Split(s)[0] && HasText(r.order.property)
    ensures r.Use? && |Split(s)| == 1 ==> r.order.direction == Asc
  {
    var parts := Split(s);
    if |parts| == 2 then
      match DirectionFromString(parts[1])
      case None => Fail
      case Some(d) => MakeOrder(d, parts[0])
    else if |parts| == 1 then MakeOrder(Asc, parts[0])
    else Skip
  }

  /** The loop over the entries: the orders in entry order, or `None`
      once an entry throws. */
  function CollectOrders(entries: seq<string>): (r: Option<seq<Order>>)
    ensures r.None? <==> exists i :: 0 <= i < |entries| && ParseEntry(entries[i]).Fail?
    ensures r.Some? ==> |r.value| <= |entries|
    ensures r.Some? ==> forall i :: 0 <= i < |r.value| ==> HasText(r.value[i].property)
  {
    if |entries| == 0 then Some([])
    else
      var rest := CollectOrders(entries[1..]);
      assert forall i :: 1 <= i < |entries| ==> entries[1..][i - 1] == entries[i];
      match ParseEntry(entries[0])
      case Fail => None
      case Skip => rest
      case Use(o) => if rest.None? then None else Some([o] + rest.value)
  }

  /** `Sort.by("name").ascending()`. */
  const ByName: Sort := [Order(Asc, "name")]

  /** `SortUtils.createSort(sort)`; `None` is a null array. */
  function CreateSort(sort: Option<seq<string>>): (r: Sort)
    ensures |r| >= 1
    ensures forall i :: 0 <= i < |r| ==> HasText(r[i].property)
    ensures sort.None? ==> r == ByName
    ensures sort.Some? && (exists i :: 0 <= i < |sort.value| && ParseEntry(sort.value[i]).Fail?) ==> r == ByName
  {
    assert HasText("name") by {
      assert !IsJavaWhitespace("name"[0]);
    }
    if sort.None? then ByName
    else
      match CollectOrders(sort.value)
      case None => ByName
      case Some(orders) => if orders == [] then ByName else orders
  }

  /** The request text of one order. */
  function Format(o: Order): string {
    o.property + "," + DirectionName(o.direction)
  }

  function FormatAll(orders: seq<Order>): (r: seq<string>)
    ensures |r| == |orders|
    ensures forall i :: 0 <= i < |orders| ==> r[i] == Format(orders[i])
  {
    if |orders| == 0 then [] else [Format(orders[0])] + FormatAll(orders[1..])
  }

  /** Orders a request can carry: a property with text and no comma. */
  predicate Requestable(o: Order) {
    HasText(o.property) && ',' !in o.property
  }

  lemma ParseFormat(o: Order)
    requires Requestable(o)
    ensures ParseEntry(Format(o)) == Use(o)
  {
    var name := DirectionName(o.direction);
    assert ',' !in name;
    SplitPair(o.property, name);
    DirectionRoundTrip(o.direction);
  }

  /** Formatting orders as request entries and parsing them back gives
      the same orders. */
  lemma {:induction false} CollectFormatted(orders: seq<Order>)
    requires forall i :: 0 <= i < |orders| ==> Requestable(orders[i])
    ensures CollectOrders(FormatAll(orders)) == Some(orders)
  {
    if |orders| > 0 {
      var entries := FormatAll(orders);
      ParseFormat(orders[0]);
      assert entries[1..] == FormatAll(orders[1..]);
      CollectFormatted(orders[1..]);
      assert orders == [orders[0]] + orders[1..];
    }
  }

  /** `createSort` inverts the request format of any non-empty list of
      requestable orders. */
  lemma CreateSortRoundTrip(orders: seq<Order>)
    requires |orders| >= 1
    requires forall i :: 0 <= i < |orders| ==> Requestable(orders[i])
    ensures CreateSort(Some(FormatAll(orders))) == orders
  {
    CollectFormatted(orders);
  }

  /** A bare property sorts ascending; a trailing comma changes nothing. */
  lemma BarePropertyAscending(p: string)
    requires HasText(p) && ',' !in p
    ensures CreateSort(Some([p])) == [Order(Asc, p)]
    ensures CreateSort(Some([p + ","])) == [Order(Asc, p)]
  {
    assert Split(p) == [p];
    assert ParseEntry(p) == Use(Order(Asc, p));
    SplitTrailingComma(p);
    assert ParseEntry(p + ",") == Use(Order(Asc, p));
    assert [p][1..] == [] && [p + ","][1..] == [];
  }

  /** Two bare properties sort by both, ascending, in request order. */
  lemma BareProperties(p: string, q: string)
    requires HasText(p) && ',' !in p && HasText(q) && ',' !in q
    ensures CreateSort(Some([p, q])) == [Order(Asc, p), Order(Asc, q)]
  {
    assert Split(p) == [p] && Split(q) == [q];
    assert ParseEntry(p) == Use(Order(Asc, p));
    assert ParseEntry(q) == Use(Order(Asc, q));
    assert [p, q][1..] == [q] && [q][1..] == [];
    assert CollectOrders([q][1..]) == Some([]);
    assert CollectOrders([q]) == Some([Order(Asc, q)] + []);
    assert [Order(Asc, q)] + [] == [Order(Asc, q)];
    assert CollectOrders([p, q][1..]) == Some([Order(Asc, q)]);
    assert CollectOrders([p, q]) == Some([Order(Asc, p)] + [Order(Asc, q)]);
  }

  /** An unknown direction discards every other entry. */
  lemma UnknownDirectionFallsBack(entries: seq<string>, i: int)
    requires 0 <= i < |entries|
    requires |Split(entries[i])| == 2 && DirectionFromString(Split(entries[i])[1]).None?
    ensures CreateSort(Some(entries)) == ByName
  {
    assert ParseEntry(entries[i]).Fail?;
  }
}
