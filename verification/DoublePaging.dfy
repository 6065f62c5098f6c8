/**
 Paging as the stores do it, on floating-point scores and with text for cursors
 (internal/store/redis/store.go:377-397, internal/store/memory/memory.go:326-359): for creation times in
 [2^30, 2^31) seconds it is the paging on exact millionths of module Paging, page for page and cursor for cursor.
 */
module DoublePaging {
  import opened Common
  import opened Paging
  import opened Score

  /** The double nearest to a number of millionths, in units of 2^-22. */
  function Units(micros: int): int {
    RoundHalfEven(micros * TWO_22, MILLION)
  }

  /** What six decimals of a double show, in millionths. */
  function Shown(units: int): int {
    RoundHalfEven(units * MILLION, TWO_22)
  }

  predicate ScoreInRange(micros: int) {
    TWO_30 * MILLION <= micros < TWO_31 * MILLION
  }

  /** The program's two roundings give the nearest double. */
  lemma ComputedIsNearest(c: Sum, seconds: int, m: int)
    requires Computes(c, seconds, m)
    ensures c.units == Units(Micros(seconds, m))
  {
    ScoreIsNear(c, seconds, m);
    RoundingExists(Micros(seconds, m) * TWO_22, MILLION);
    NearestIsRounding(Units(Micros(seconds, m)), c.units, Micros(seconds, m) * TWO_22, MILLION);
  }

  lemma SplitMicros(micros: int) returns (seconds: int, m: int)
    requires ScoreInRange(micros)
    ensures InRange(seconds, m) && micros == Micros(seconds, m)
  {
    seconds, m := micros / MILLION, micros % MILLION;
  }

  lemma UnitsOrder(a: int, b: int)
    requires ScoreInRange(a) && ScoreInRange(b)
    ensures Units(a) < Units(b) <==> a < b
    ensures Units(a) == Units(b) <==> a == b
  {
    var s, m := SplitMicros(a);
    var t, n := SplitMicros(b);
    var c := ScoreExists(s, m);
    var d := ScoreExists(t, n);
    ComputedIsNearest(c, s, m);
    ComputedIsNearest(d, t, n);
    ScoresOrder(c, s, m, d, t, n);
  }

  lemma ShownIsExact(micros: int)
    requires ScoreInRange(micros)
    ensures Shown(Units(micros)) == micros
  {
    var s, m := SplitMicros(micros);
    var c := ScoreExists(s, m);
    ComputedIsNearest(c, s, m);
    RoundingExists(c.units * MILLION, TWO_22);
    RoundingExists(Shown(c.units) * TWO_22, MILLION);
    CursorIsExact(c, s, m, Shown(c.units), Units(Shown(c.units)));
  }

  // ---------- Rows ----------

  /** The rows with their scores as doubles. */
  function Doubles(rows: seq<Row>): seq<Row> {
    if rows == [] then [] else [Row(rows[0].id, Units(rows[0].score))] + Doubles(rows[1..])
  }

  predicate AllInRange(rows: seq<Row>) {
    forall r :: r in rows ==> ScoreInRange(r.score)
  }

  predicate CursorInRange(cursor: Option<int>) {
    cursor.Some? ==> ScoreInRange(cursor.value)
  }

  function DoubleCursor(cursor: Option<int>): Option<int> {
    if cursor.Some? then Some(Units(cursor.value)) else None
  }

  lemma {:induction false} DoublesAt(rows: seq<Row>)
    ensures |Doubles(rows)| == |rows|
    ensures forall i :: 0 <= i < |rows| ==> Doubles(rows)[i] == Row(rows[i].id, Units(rows[i].score))
  {
    if rows != [] {
      DoublesAt(rows[1..]);
    }
  }

  lemma {:induction false} BelowOnDoubles(rows: seq<Row>, cursor: Option<int>)
    requires AllInRange(rows) && CursorInRange(cursor)
    ensures Below(Doubles(rows), DoubleCursor(cursor)) == Doubles(Below(rows, cursor))
  {
    if rows != [] {
      var r, rest := rows[0], rows[1..];
      BelowOnDoubles(rest, cursor);
      if cursor.Some? {
        UnitsOrder(r.score, cursor.value);
      }
      assert Doubles(rows)[1..] == Doubles(rest);
      if Under(r.score, cursor) {
        assert ([r] + Below(rest, cursor))[1..] == Below(rest, cursor);
      }
    }
  }

  lemma FirstDoubles(rows: seq<Row>, n: nat)
    requires n <= |rows|
    ensures |Doubles(rows)| == |rows| && Doubles(rows[..n]) == Doubles(rows)[..n]
  {
    DoublesAt(rows);
    DoublesAt(rows[..n]);
  }

  lemma NextInRange(rows: seq<Row>, cursor: Option<int>, size: nat)
    requires size >= 1 && AllInRange(rows)
    ensures CursorInRange(Page(rows, cursor, size).1)
  {
    var below := Below(rows, cursor);
    if |below| > size {
      BelowMembers(rows, cursor, below[size - 1]);
    }
  }

  /** What a page is, given the rows under its cursor. */
  function CutPage(below: seq<Row>, size: nat): (seq<Row>, Option<int>)
    requires size >= 1
  {
    if |below| > size then (below[..size], Some(below[size - 1].score)) else (below, None)
  }

  lemma CutOnDoubles(below: seq<Row>, size: nat)
    requires size >= 1
    ensures var (page, next) := CutPage(below, size);
            CutPage(Doubles(below), size) == (Doubles(page), DoubleCursor(next))
  {
    DoublesAt(below);
    if |below| > size {
      FirstDoubles(below, size);
    }
  }

  /** A page cut by doubles is the page cut by millionths. */
  lemma PageOnDoubles(rows: seq<Row>, cursor: Option<int>, size: nat)
    requires size >= 1 && AllInRange(rows) && CursorInRange(cursor)
    ensures var (page, next) := Page(rows, cursor, size);
            Page(Doubles(rows), DoubleCursor(cursor), size) == (Doubles(page), DoubleCursor(next))
    ensures CursorInRange(Page(rows, cursor, size).1)
  {
    BelowOnDoubles(rows, cursor);
    CutOnDoubles(Below(rows, cursor), size);
    NextInRange(rows, cursor, size);
  }

  // ---------- Cursors as text ----------

  /** The text handed out for a double, and none at the end. */
  function Printed(next: Option<int>): string {
    if next.Some? then SignedText(Shown(next.value)) else ""
  }

  /** What a store makes of a cursor: no text and text it cannot read mean the first page. */
  function ReadBack(text: string, parse: string -> Option<int>): Option<int> {
    if text == "" then None else parse(text)
  }

  /** A cursor that is no text or cannot be read starts at the first page, and any other where it is read to cut. */
  lemma UnreadableIsFirst(text: string, parse: string -> Option<int>)
    ensures ReadBack(text, parse) == None <==> text == "" || parse(text) == None
    ensures text != "" && parse(text).Some? ==> ReadBack(text, parse) == parse(text)
  {
  }

  /** ParseFloat reads a plain number with six decimals as the double nearest to it; of other texts nothing is said. */
  ghost predicate ReadsDecimals(parse: string -> Option<int>) {
    forall n: nat :: ScoreInRange(n) ==> parse(FixedText(n)) == Some(Units(n))
  }

  lemma DecimalsCanBeRead() returns (parse: string -> Option<int>)
    ensures ReadsDecimals(parse)
  {
    parse := text => DoubleCursor(FixedValue(text));
    forall n: nat
      ensures parse(FixedText(n)) == Some(Units(n))
    {
      FixedRoundTrip(n);
    }
  }

  /** One page call as a client sees it: a cursor text in, rows and a cursor text out. */
  function TextPage(rows: seq<Row>, text: string, size: nat, parse: string -> Option<int>): (seq<Row>, string)
    requires size >= 1
  {
    var (page, next) := Page(rows, ReadBack(text, parse), size);
    (page, Printed(next))
  }

  /** The text of a cursor in millionths. */
  function TextOf(cursor: Option<int>): string {
    if cursor.Some? then SignedText(cursor.value) else ""
  }

  lemma TextReadsBack(cursor: Option<int>, parse: string -> Option<int>)
    requires CursorInRange(cursor) && ReadsDecimals(parse)
    ensures ReadBack(TextOf(cursor), parse) == DoubleCursor(cursor)
    ensures Printed(DoubleCursor(cursor)) == TextOf(cursor)
  {
    if cursor.Some? {
      ShownIsExact(cursor.value);
      assert |FixedText(cursor.value)| >= 1;
      assert parse(FixedText(cursor.value)) == Some(Units(cursor.value));
    }
  }

  /** A page call on doubles with cursors printed and parsed is the call on millionths. */
  lemma TextPageIsPage(rows: seq<Row>, cursor: Option<int>, size: nat, parse: string -> Option<int>)
    requires size >= 1 && AllInRange(rows) && CursorInRange(cursor) && ReadsDecimals(parse)
    ensures var (page, next) := Page(rows, cursor, size);
            TextPage(Doubles(rows), TextOf(cursor), size, parse) == (Doubles(page), TextOf(next))
  {
    var next := Page(rows, cursor, size).1;
    TextReadsBack(cursor, parse);
    PageOnDoubles(rows, cursor, size);
    TextReadsBack(next, parse);
  }

  /** The cursor texts a client hands in one after the other until a call answers with none. */
  predicate Follows(rows: seq<Row>, texts: seq<string>, size: nat, parse: string -> Option<int>)
    requires size >= 1
  {
    texts != [] &&
    var next := TextPage(rows, texts[0], size, parse).1;
    if |texts| == 1 then next == "" else next != "" && texts[1] == next && Follows(rows, texts[1..], size, parse)
  }

  /** The pages served to these calls, one after the other. */
  function Pages(rows: seq<Row>, texts: seq<string>, size: nat, parse: string -> Option<int>): seq<Row>
    requires size >= 1
  {
    if texts == [] then [] else TextPage(rows, texts[0], size, parse).0 + Pages(rows, texts[1..], size, parse)
  }

  lemma {:induction false} DoublesConcat(a: seq<Row>, b: seq<Row>)
    ensures Doubles(a + b) == Doubles(a) + Doubles(b)
  {
    if a == [] {
      assert a + b == b;
    } else {
      assert (a + b)[1..] == a[1..] + b;
      DoublesConcat(a[1..], b);
    }
  }

  lemma TextIsNone(cursor: Option<int>)
    requires CursorInRange(cursor)
    ensures TextOf(cursor) == "" <==> cursor == None
  {
    if cursor.Some? {
      assert FixedText(cursor.value) != "";
    }
  }

  /** A client's whole walk over doubles and texts is served the walk over millionths. */
  lemma {:induction false} TextWalkIsWalk(rows: seq<Row>, cursor: Option<int>, texts: seq<string>, size: nat,
                                          parse: string -> Option<int>)
    requires size >= 1 && AllInRange(rows) && CursorInRange(cursor) && ReadsDecimals(parse)
    requires Follows(Doubles(rows), texts, size, parse) && texts[0] == TextOf(cursor)
    ensures Pages(Doubles(rows), texts, size, parse) == Doubles(Walk(rows, cursor, size))
    decreases |texts|
  {
    var (page, next) := Page(rows, cursor, size);
    TextPageIsPage(rows, cursor, size, parse);
    PageOnDoubles(rows, cursor, size);
    TextIsNone(next);
    if next.Some? {
      NextIsLower(rows, cursor, size);
      TextWalkIsWalk(rows, next, texts[1..], size, parse);
      DoublesConcat(page, Walk(rows, next, size));
    } else {
      assert Pages(Doubles(rows), texts[1..], size, parse) == [];
      assert Doubles(page) + [] == Doubles(page);
    }
  }

  /** There is such a walk from every cursor, so a client gets to the end. */
  lemma {:induction false} TextWalkEnds(rows: seq<Row>, cursor: Option<int>, size: nat, parse: string -> Option<int>)
    returns (texts: seq<string>)
    requires size >= 1 && AllInRange(rows) && CursorInRange(cursor) && ReadsDecimals(parse)
    ensures Follows(Doubles(rows), texts, size, parse) && texts[0] == TextOf(cursor)
    decreases |Below(rows, cursor)|
  {
    var next := Page(rows, cursor, size).1;
    TextPageIsPage(rows, cursor, size, parse);
    PageOnDoubles(rows, cursor, size);
    TextIsNone(next);
    if next.Some? {
      NextIsLower(rows, cursor, size);
      var rest := TextWalkEnds(rows, next, size, parse);
      texts := [TextOf(cursor)] + rest;
      assert texts[1..] == rest;
    } else {
      texts := [TextOf(cursor)];
    }
  }
}
