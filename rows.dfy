/** `parse_data` of grouping.py: one row of students per form response,
    the requester first, then the students they asked for. */
module Rows {
  import opened Wrappers
  import opened Names

  /** One form response: the requester's first-name and last-name cells and
      the request cells in column order (`None` for an empty cell). */
  datatype FormRow = FormRow(first: string, last: string, cells: seq<Option<string>>)

  /** The requester, built from the two name cells without splitting. */
  function Requester(row: FormRow): Student {
    NewStudent(row.first, row.last, None)
  }

  /** A cell that makes `parse` raise: present, but without any word. */
  predicate Blank(cell: Option<string>) {
    cell.Some? && Parse(cell.value).Err?
  }

  /** The student a cell contributes to the row of a requester whose full
      name is `me`: none for an empty cell, for a name that does not parse,
      or for a name equal to the requester's own. */
  function Kept(cell: Option<string>, me: string): Option<Student> {
    if cell.Some? && Parse(cell.value).Ok? && FullName(Parse(cell.value).value) != me
    then Some(Parse(cell.value).value)
    else None
  }

  /** The requested students kept from `cells`, in column order: each
      non-empty cell is parsed, and a student whose full name is `me` is
      skipped. A cell without any word makes `parse` raise. */
  function Requests(cells: seq<Option<string>>, me: string): (r: Result<seq<Student>, NameError>)
    ensures r.Ok? ==> |r.value| <= |cells|
    decreases |cells|
  {
    if cells == [] then Ok([])
    else
      var last := cells[|cells| - 1];
      match Requests(cells[..|cells| - 1], me)
      case Err(e) => Err(e)
      case Ok(kept) =>
        if Blank(last) then Err(EmptyName)
        else match Kept(last, me)
          case Some(st) => Ok(kept + [st])
          case None => Ok(kept)
  }

  /** The row `parse_data` builds for one response. */
  function ParseRow(row: FormRow): Result<seq<Student>, NameError> {
    match Requests(row.cells, FullName(Requester(row)))
    case Err(e) => Err(e)
    case Ok(kept) => Ok([Requester(row)] + kept)
  }

  /** `parse_data` over all responses: the first name error aborts it. */
  function ParseRows(rows: seq<FormRow>): (r: Result<seq<seq<Student>>, NameError>)
    ensures r.Ok? ==> |r.value| == |rows|
    decreases |rows|
  {
    if rows == [] then Ok([])
    else
      match ParseRows(rows[..|rows| - 1])
      case Err(e) => Err(e)
      case Ok(done) =>
        match ParseRow(rows[|rows| - 1])
        case Err(e) => Err(e)
        case Ok(s) => Ok(done + [s])
  }

  /** Requests fails exactly when some cell is blank. */
  lemma {:induction false} RequestsFails(cells: seq<Option<string>>, me: string)
    ensures Requests(cells, me).Err? <==> exists i :: 0 <= i < |cells| && Blank(cells[i])
    decreases |cells|
  {
    if cells != [] {
      var init := cells[..|cells| - 1];
      RequestsFails(init, me);
      if exists i :: 0 <= i < |init| && Blank(init[i]) {
        var i :| 0 <= i < |init| && Blank(init[i]);
        assert cells[i] == init[i];
      }
      if exists i :: 0 <= i < |cells| && Blank(cells[i]) {
        var i :| 0 <= i < |cells| && Blank(cells[i]);
        if i < |init| { assert init[i] == cells[i]; }
      }
    }
  }

  /** What each cell of a row contributes, given the requester's full name. */
  function Contributions(cells: seq<Option<string>>, me: string): (r: seq<Option<Student>>)
    ensures |r| == |cells|
  {
    seq(|cells|, i requires 0 <= i < |cells| => Kept(cells[i], me))
  }

  /** `idx` lists, in increasing order, exactly the positions of `opts` that
      hold a value, and `kept` holds those values. */
  ghost predicate Selects<T>(opts: seq<Option<T>>, idx: seq<int>, kept: seq<T>)
  {
    && |idx| == |kept|
    && (forall k :: 0 <= k < |idx| ==> 0 <= idx[k] < |opts| && opts[idx[k]] == Some(kept[k]))
    && (forall k, l :: 0 <= k < l < |idx| ==> idx[k] < idx[l])
    && (forall i :: 0 <= i < |opts| && opts[i].Some? ==> i in idx)
  }

  /** The requests of a row are the non-empty cells, parsed, in column
      order, minus exactly those whose full name is the requester's. */
  lemma {:induction false} RequestsSelect(cells: seq<Option<string>>, me: string) returns (idx: seq<int>)
    requires Requests(cells, me).Ok?
    ensures Selects(Contributions(cells, me), idx, Requests(cells, me).value)
    decreases |cells|
  {
    if cells == [] {
      idx := [];
    } else {
      var n := |cells| - 1;
      var init := cells[..n];
      RequestsSnoc(cells, me);
      var prev := RequestsSelect(init, me);
      var kept := Requests(init, me).value;
      var opts := Contributions(cells, me);
      assert opts[..n] == Contributions(init, me);
      SelectsSnoc(opts, prev, kept);
      idx := prev + (if opts[n].Some? then [n] else []);
    }
  }

  /** One more cell adds its kept student, if any, to the requests. */
  lemma RequestsSnoc(cells: seq<Option<string>>, me: string)
    requires cells != [] && Requests(cells, me).Ok?
    ensures var n := |cells| - 1;
      && Requests(cells[..n], me).Ok?
      && Requests(cells, me).value ==
         Requests(cells[..n], me).value + (if Kept(cells[n], me).Some? then [Kept(cells[n], me).value] else [])
  {
  }

  lemma SelectsSnoc<T>(opts: seq<Option<T>>, prev: seq<int>, kept: seq<T>)
    requires opts != []
    requires Selects(opts[..|opts| - 1], prev, kept)
    ensures var n := |opts| - 1;
      Selects(opts,
              prev + (if opts[n].Some? then [n] else []),
              kept + (if opts[n].Some? then [opts[n].value] else []))
  {
    var n := |opts| - 1;
    assert forall i :: 0 <= i < n ==> opts[..n][i] == opts[i];
  }

  /** `parse_data` fails when any response fails to parse, and otherwise
      its i-th row is the row built for the i-th response. */
  lemma {:induction false} ParseRowsAt(rows: seq<FormRow>, i: int)
    requires 0 <= i < |rows|
    ensures ParseRow(rows[i]).Err? ==> ParseRows(rows).Err?
    ensures ParseRows(rows).Ok? ==> ParseRow(rows[i]) == Ok(ParseRows(rows).value[i])
    decreases |rows|
  {
    var n := |rows| - 1;
    if i < n {
      ParseRowsAt(rows[..n], i);
      assert rows[..n][i] == rows[i];
    }
  }

  /** One more parsed response keeps the run successful. */
  lemma ParseRowsStep(rows: seq<FormRow>)
    requires rows != []
    requires ParseRows(rows[..|rows| - 1]).Ok? && ParseRow(rows[|rows| - 1]).Ok?
    ensures ParseRows(rows).Ok?
  {
  }

  /** `parse_data` succeeds whenever every response parses; with
      `ParseRowsAt`, it succeeds exactly when every response parses. */
  lemma {:induction false} ParseRowsOk(rows: seq<FormRow>)
    ensures (forall i :: 0 <= i < |rows| ==> ParseRow(rows[i]).Ok?) ==> ParseRows(rows).Ok?
    decreases |rows|
  {
    if rows != [] && forall i :: 0 <= i < |rows| ==> ParseRow(rows[i]).Ok? {
      var n := |rows| - 1;
      var init := rows[..n];
      forall i | 0 <= i < |init|
        ensures ParseRow(init[i]).Ok?
      {
        assert init[i] == rows[i];
      }
      ParseRowsOk(init);
      ParseRowsStep(rows);
    }
  }

  /** Every parsed row starts with its requester, and no later entry has
      the requester's full name. */
  lemma ParsedRowShape(rows: seq<FormRow>, i: int)
    requires ParseRows(rows).Ok? && 0 <= i < |rows|
    ensures |ParseRows(rows).value[i]| >= 1
    ensures ParseRows(rows).value[i][0] == Requester(rows[i])
    ensures forall j :: 1 <= j < |ParseRows(rows).value[i]| ==>
      FullName(ParseRows(rows).value[i][j]) != FullName(ParseRows(rows).value[i][0])
  {
    ParseRowsAt(rows, i);
    RowShape(rows[i]);
  }

  lemma RowShape(row: FormRow)
    requires ParseRow(row).Ok?
    ensures |ParseRow(row).value| >= 1 && ParseRow(row).value[0] == Requester(row)
    ensures forall j :: 1 <= j < |ParseRow(row).value| ==>
      FullName(ParseRow(row).value[j]) != FullName(ParseRow(row).value[0])
  {
    var me := FullName(Requester(row));
    KeptNames(row.cells, me);
    var kept := Requests(row.cells, me).value;
    var r := ParseRow(row).value;
    assert r == [Requester(row)] + kept;
    forall j | 1 <= j < |r| ensures FullName(r[j]) != FullName(r[0]) {
      assert r[j] == kept[j - 1];
    }
  }

  /** No kept request has the requester's full name. */
  lemma {:induction false} KeptNames(cells: seq<Option<string>>, me: string)
    requires Requests(cells, me).Ok?
    ensures forall k :: 0 <= k < |Requests(cells, me).value| ==> FullName(Requests(cells, me).value[k]) != me
    decreases |cells|
  {
    if cells != [] {
      var n := |cells| - 1;
      RequestsSnoc(cells, me);
      KeptNames(cells[..n], me);
    }
  }

  method ParseData(rows: seq<FormRow>) returns (out: Result<seq<seq<Student>>, NameError>)
    ensures out == ParseRows(rows)
  {
    var students: seq<seq<Student>> := [];
    var i := 0;
    while i < |rows|
      invariant 0 <= i <= |rows|
      invariant ParseRows(rows[..i]) == Ok(students)
    {
      var main := Requester(rows[i]);
      var kept := RowRequests(rows[i].cells, FullName(main));
      if kept.Err? {
        assert ParseRow(rows[i]).Err?;
        ParseRowsAt(rows, i);
        assert ParseRows(rows).error == EmptyName;
        return Err(EmptyName);
      }
      assert rows[..i + 1][..i] == rows[..i];
      students := students + [[main] + kept.value];
      i := i + 1;
    }
    assert rows[..i] == rows;
    out := Ok(students);
  }

  /** The inner loop of `parse_data`: the requested names of one row, in
      order, dropping the requester's own name; a blank name aborts. */
  method RowRequests(cells: seq<Option<string>>, me: string) returns (r: Result<seq<Student>, NameError>)
    ensures r == Requests(cells, me)
  {
    var s: seq<Student> := [];
    var j := 0;
    while j < |cells|
      invariant 0 <= j <= |cells|
      invariant Requests(cells[..j], me) == Ok(s)
    {
      assert cells[..j + 1][..j] == cells[..j];
      var cell := cells[j];
      if cell.Some? {
        var parsed := Parse(cell.value);
        if parsed.Err? {
          RequestsErrPropagates(cells, j + 1, me);
          assert Requests(cells, me).error == EmptyName;
          return Err(EmptyName);
        }
        if FullName(parsed.value) != me {
          s := s + [parsed.value];
        }
      }
      j := j + 1;
    }
    assert cells[..j] == cells;
    r := Ok(s);
  }

  lemma {:induction false} RequestsErrPropagates(cells: seq<Option<string>>, j: int, me: string)
    requires 0 <= j <= |cells| && Requests(cells[..j], me).Err?
    ensures Requests(cells, me).Err?
  {
    RequestsFails(cells[..j], me);
    RequestsFails(cells, me);
    var i :| 0 <= i < j && Blank(cells[..j][i]);
    assert Blank(cells[i]);
  }
}
