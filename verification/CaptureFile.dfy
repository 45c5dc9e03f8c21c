/** The capture on disk: a JSON array that is rewritten whole or extended in place. */
module CaptureFile {
  import opened Wrappers

  datatype Signal = Traces | Metrics | Logs

  // `spans` is the number of trace spans in the payload and `retained` its charge
  // against the capture limit.
  datatype Record = Record(signal: Signal, spans: nat, retained: nat, payload: seq<nat>)

  // A file is a sequence of whole JSON tokens, each with its width in bytes.
  datatype Cell = Open | Close | Comma | Newline | Blank(spaces: nat) | Item(record: Record)

  // A serialized record is a JSON object, so it has at least two bytes.
  function CellWidth(c: Cell): (w: nat) {
    match c
    case Blank(n) => 1 + n
    case Item(r) => 2 + |r.payload|
    case _ => 1
  }

  function Width(cells: seq<Cell>): nat {
    if cells == [] then 0 else Width(cells[..|cells| - 1]) + CellWidth(cells[|cells| - 1])
  }

  // ---- Reading a file back ----

  function Trim(cells: seq<Cell>): (r: seq<Cell>)
    ensures |r| <= |cells|
  {
    if cells != [] && cells[|cells| - 1].Blank? then Trim(cells[..|cells| - 1]) else cells
  }

  /** The elements of an array, read from its end. */
  function Elements(cells: seq<Cell>): (r: Option<seq<Record>>)
    decreases |cells|
  {
    var body := Trim(cells);
    if body == [] then Some([])
    else if !body[|body| - 1].Item? then None
    else
      var r := body[|body| - 1].record;
      var before := Trim(body[..|body| - 1]);
      if before == [] then Some([r])
      else if !before[|before| - 1].Comma? then None
      else
        var rest := Elements(before[..|before| - 1]);
        if rest.Some? && rest.value != [] then Some(rest.value + [r]) else None
  }

  predicate Closed(file: seq<Cell>) {
    |file| >= 3 && file[0] == Open && file[|file| - 2] == Close && file[|file| - 1] == Newline
  }

  /** The records that a reader of the file finds. */
  function Decode(file: seq<Cell>): Option<seq<Record>> {
    if Closed(file) then Elements(file[1..|file| - 2]) else None
  }

  // ---- Writing it whole ----

  function PrettyBody(records: seq<Record>): (cells: seq<Cell>) {
    if records == [] then []
    else
      var n := |records| - 1;
      PrettyBody(records[..n]) + (if n > 0 then [Comma] else []) + [Blank(2), Item(records[n])]
  }

  /** The pretty-printed array: one record to a line. */
  function Pretty(records: seq<Record>): seq<Cell> {
    if records == [] then [Open, Close, Newline]
    else [Open] + PrettyBody(records) + [Blank(0), Close, Newline]
  }

  lemma TrimBlank(cells: seq<Cell>, spaces: nat)
    ensures Trim(cells + [Blank(spaces)]) == Trim(cells)
  {
    assert (cells + [Blank(spaces)])[..|cells|] == cells;
  }

  lemma TrimSolid(cells: seq<Cell>, last: Cell)
    requires !last.Blank?
    ensures Trim(cells + [last]) == cells + [last]
  {
  }

  lemma FirstElement(spaces: nat, r: Record)
    ensures Elements([Blank(spaces), Item(r)]) == Some([r])
  {
    hide Trim;
    TrimSolid([Blank(spaces)], Item(r));
    TrimBlank([], spaces);
    assert [Blank(spaces)] + [Item(r)] == [Blank(spaces), Item(r)];
    assert [Blank(spaces), Item(r)][..1] == [] + [Blank(spaces)];
    NothingToTrim();
  }

  lemma NothingToTrim()
    ensures Trim([]) == []
  {
  }

  lemma NextElement(cells: seq<Cell>, records: seq<Record>, spaces: nat, r: Record)
    requires Elements(cells) == Some(records) && records != []
    ensures Elements(cells + [Comma, Blank(spaces), Item(r)]) == Some(records + [r])
  {
    hide Trim;
    var all := cells + [Comma, Blank(spaces), Item(r)];
    var before := cells + [Comma];
    TrimSolid(before + [Blank(spaces)], Item(r));
    TrimBlank(before, spaces);
    TrimSolid(cells, Comma);
    assert all == before + [Blank(spaces)] + [Item(r)];
    assert all[..|all| - 1] == before + [Blank(spaces)];
    assert before[..|cells|] == cells;
  }

  lemma {:induction false} PrettyBodyElements(records: seq<Record>)
    ensures Elements(PrettyBody(records)) == Some(records)
  {
    hide Elements;
    if records == [] {
      NoElements();
    } else {
      var n := |records| - 1;
      PrettyBodyElements(records[..n]);
      assert records == records[..n] + [records[n]];
      if n == 0 {
        FirstElement(2, records[0]);
        assert PrettyBody(records) == [Blank(2), Item(records[0])];
      } else {
        NextElement(PrettyBody(records[..n]), records[..n], 2, records[n]);
        assert PrettyBody(records) == PrettyBody(records[..n]) + [Comma, Blank(2), Item(records[n])];
      }
    }
  }

  lemma NoElements()
    ensures Elements([]) == Some([])
  {
  }

  lemma ElementsBlank(cells: seq<Cell>, spaces: nat)
    ensures Elements(cells + [Blank(spaces)]) == Elements(cells)
  {
    hide Trim;
    TrimBlank(cells, spaces);
  }

  // The file holds the records, and holds nothing but brackets when there are none.
  ghost predicate Stores(file: seq<Cell>, records: seq<Record>) {
    Decode(file) == Some(records) && (records == [] ==> file == [Open, Close, Newline])
  }

  /** A file written whole reads back as the records. */
  lemma PrettyStores(records: seq<Record>)
    ensures Stores(Pretty(records), records)
  {
    hide Elements;
    var file := Pretty(records);
    PrettyBodyElements(records);
    if records == [] {
      assert file[1..|file| - 2] == [] == PrettyBody(records);
    } else {
      var body := PrettyBody(records);
      assert file[1..|file| - 2] == body + [Blank(0)];
      ElementsBlank(body, 0);
    }
  }

  // ---- Extending it in place ----

  /** The file after a record was appended to it. */
  function Appended(file: seq<Cell>, r: Record): seq<Cell>
    requires file == [] || Closed(file)
  {
    if file == [] then [Open, Item(r), Close, Newline]
    else file[..|file| - 2] + (if Width(file) > 3 then [Comma] else []) + [Item(r), Close, Newline]
  }

  lemma {:induction false} WidthAtLeast(cells: seq<Cell>)
    ensures Width(cells) >= |cells|
  {
    if cells != [] {
      WidthAtLeast(cells[..|cells| - 1]);
    }
  }

  lemma EmptyArrayWidth()
    ensures Width([Open, Close, Newline]) == 3
  {
    var file := [Open, Close, Newline];
    assert file[..2] == [Open, Close] && file[..2][..1] == [Open] && file[..1][..0] == [];
    assert Width([Open]) == 1;
    assert Width([Open, Close]) == 2;
  }

  lemma WidthOfClosed(file: seq<Cell>)
    requires Closed(file)
    ensures Width(file) > 3 <==> file != [Open, Close, Newline]
  {
    EmptyArrayWidth();
    if |file| == 3 {
      assert file == [Open, Close, Newline];
    } else {
      WidthAtLeast(file);
    }
  }

  /** Appending to a file that stores the records makes it store one more. */
  lemma AppendStores(file: seq<Cell>, records: seq<Record>, r: Record)
    requires Stores(file, records)
    ensures Stores(Appended(file, r), records + [r])
  {
    var next := Appended(file, r);
    WidthOfClosed(file);
    if records == [] {
      assert next == [Open, Item(r), Close, Newline] && records + [r] == [r];
      assert next[1..|next| - 2] == [Item(r)];
      assert Trim([Item(r)]) == [Item(r)];
      assert Trim([]) == [];
      assert [Item(r)][..0] == [];
      assert Elements([Item(r)]) == Some([r]);
    } else {
      var body := file[1..|file| - 2];
      assert file != [Open, Close, Newline] by {
        assert [Open, Close, Newline][1..1] == [];
      }
      var longer := body + [Comma, Item(r)];
      assert next[1..|next| - 2] == longer;
      assert longer[..|longer| - 1] == body + [Comma];
      assert (body + [Comma])[..|body|] == body;
    }
  }

  // ---- The file operations ----

  /** What remains of the cells after n bytes; none if the cut falls inside a token. */
  function AfterBytes(cells: seq<Cell>, n: nat): Option<seq<Cell>> {
    if n == 0 || cells == [] then Some(cells)
    else if CellWidth(cells[0]) <= n then AfterBytes(cells[1..], n - CellWidth(cells[0]))
    else None
  }

  /** An open file with its position. */
  class OutputFile {
    var cells: seq<Cell>
    var at: nat

    ghost predicate Valid()
      reads this
    {
      at <= |cells|
    }

    constructor (contents: seq<Cell>)
      ensures Valid() && cells == contents && at == 0
    {
      cells, at := contents, 0;
    }

    method SeekEnd() returns (length: nat)
      requires Valid()
      modifies this`at
      ensures Valid() && at == |cells| && length == Width(cells)
    {
      at := |cells|;
      length := Width(cells);
    }

    /** Two bytes before the end, where a closed array has its bracket. */
    method SeekBeforeClose()
      requires Valid() && Closed(cells)
      modifies this`at
      ensures Valid() && at == |cells| - 2
    {
      at := |cells| - 2;
    }

    /** Overwrites the bytes at the position and grows the file past its end. */
    method Write(c: Cell)
      requires Valid() && AfterBytes(cells[at..], CellWidth(c)).Some?
      modifies this
      ensures Valid() && at == old(at) + 1
      ensures cells == old(cells[..at]) + [c] + AfterBytes(old(cells[at..]), CellWidth(c)).value
    {
      cells := cells[..at] + [c] + AfterBytes(cells[at..], CellWidth(c)).value;
      at := at + 1;
    }

    /** The record and the closing bracket, over at most two leftover bytes. */
    method WriteElement(r: Record)
      requires Valid() && |cells| - at <= 2 && forall i :: at <= i < |cells| ==> CellWidth(cells[i]) == 1
      modifies this
      ensures Valid() && at == |cells| && cells == old(cells[..at]) + [Item(r), Close, Newline]
    {
      OverwriteShort(cells[at..], Item(r));
      Write(Item(r));
      Write(Close);
      Write(Newline);
    }

    /** Moves to where the next element goes, writing what must stand before it. */
    method SeekElement(length: nat)
      requires Valid() && at == |cells| && (cells == [] || Closed(cells)) && (length == 0 <==> cells == [])
      modifies this
      ensures Valid() && |cells| - at <= 2 && forall i :: at <= i < |cells| ==> CellWidth(cells[i]) == 1
      ensures cells[..at] == if old(cells) == [] then [Open]
                             else old(cells[..|cells| - 2]) + if length > 3 then [Comma] else []
    {
      if length == 0 {
        Write(Open);
      } else {
        SeekBeforeClose();
        if length > 3 {
          assert cells[at..] == [Close] + [Newline];
          OverwriteOne(Close, [Newline]);
          Write(Comma);
        }
      }
    }

    method AppendRecord(r: Record)
      requires Valid() && (cells == [] || Closed(cells))
      modifies this
      ensures Valid() && cells == Appended(old(cells), r)
    {
      hide Width;
      EmptyWidth(cells);
      var length := SeekEnd();
      SeekElement(length);
      WriteElement(r);
    }
  }

  lemma EmptyWidth(cells: seq<Cell>)
    ensures Width(cells) == 0 <==> cells == []
  {
    WidthAtLeast(cells);
  }

  lemma OverwriteOne(c: Cell, rest: seq<Cell>)
    requires CellWidth(c) == 1
    ensures AfterBytes([c] + rest, 1) == Some(rest)
  {
    assert ([c] + rest)[1..] == rest;
  }

  lemma {:induction false} OverwriteShort(cells: seq<Cell>, c: Cell)
    requires |cells| <= CellWidth(c) && forall i :: 0 <= i < |cells| ==> CellWidth(cells[i]) == 1
    ensures AfterBytes(cells, CellWidth(c)) == Some([])
  {
    OnlyShort(cells, CellWidth(c));
  }

  lemma {:induction false} OnlyShort(cells: seq<Cell>, n: nat)
    requires |cells| <= n && forall i :: 0 <= i < |cells| ==> CellWidth(cells[i]) == 1
    ensures AfterBytes(cells, n) == Some([])
  {
    if cells != [] {
      OnlyShort(cells[1..], n - 1);
    }
  }
}
