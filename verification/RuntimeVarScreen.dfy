// RuntimeVarEditor.c: what the variable list shows, as a full redraw would draw it, and what
// the incremental redraw leaves on the screen.  With graphics rows are cells (text and
// highlight); the text console is a scroll of printed lines.  The transient message and
// pixels are left out.
module RuntimeVarScreen {
  import opened Bytes
  import opened RuntimeVariables
  import opened Sequences

  const HEX_PAGE_BYTES: nat := 256
  const LIST_ROW_HEIGHT: nat := 22

  datatype Row = Empty | Shown(variable: Variable, highlighted: bool)

  // The line "Runtime variables / Selected / Showing" and the two lines about the selection.
  datatype Header = Header(count: nat, selected: nat, first: nat, last: nat, variable: Option<Variable>)

  datatype Mode = ListView | DetailView | Prompt

  // One line printed on the text console; Foreign is anything that is not of the list.
  datatype Text =
    | Title | Help | Summary(count: nat, selected: nat, first: nat, last: nat)
    | Selection(name: string, size: nat) | SelectionGuid(guid: nat, attributes: nat)
    | Caption(column: nat)
    | NameText(name: string) | AttributesText(attributes: nat) | SizeText(size: nat) | GuidText(guid: nat)
    | Foreign

  // The list in graphics mode, something else in graphics mode, or the text console.
  datatype Screen = List(header: Header, rows: seq<Row>) | Over(mode: Mode) | Console(lines: seq<Text>)

  // The visible rows, and whether there are graphics and fonts.
  datatype Context = Context(rows: nat, graphics: bool)

  datatype Key =
    | Up | Down | PageUp | PageDown | Left | Right | Esc | Enter
    | Quit | Refresh | EditByte | EditAttributes | DeleteVariable | Other

  // What the store and the prompts answer while one key is handled.
  datatype Response = Response(loaded: seq<Variable>, reread: Variable, saved: bool)

  datatype Model = Model(variables: seq<Variable>, selected: nat, first: nat, detail: bool, detailOffset: nat)

  // The rows that fit below the header, of 22 pixels each.
  function VisibleRows(height: nat): (rows: nat)
    ensures height < 150 ==> rows == 16
    ensures height >= 150 ==> 138 + 22 * rows <= height < 138 + 22 * (rows + 1)
  {
    if height < 150 then 16 else (height - 138) / LIST_ROW_HEIGHT
  }

  // ---- The simple form: what is shown follows from the model alone.

  function HeaderOf(vs: seq<Variable>, selected: nat, first: nat, rows: nat): Header
    requires vs == [] || selected < |vs|
  {
    var last := if vs == [] then 0 else if first + rows > |vs| then |vs| else first + rows;
    Header(|vs|, if vs == [] then 0 else selected + 1, if vs == [] then 0 else first + 1, last,
           if vs == [] then None else Some(vs[selected]))
  }

  function RowOf(vs: seq<Variable>, selected: nat, index: nat): Row {
    if index < |vs| then Shown(vs[index], index == selected) else Empty
  }

  // The lines the header, and a row, are printed as; the console shows no highlight.
  function HeaderText(h: Header): seq<Text> {
    [Summary(h.count, h.selected, h.first, h.last)]
    + match h.variable
      case None => []
      case Some(v) => [Selection(v.name, v.size), SelectionGuid(v.guid, v.attributes)]
  }

  function RowText(v: Variable): seq<Text> {
    [NameText(v.name), AttributesText(v.attributes), SizeText(v.size), GuidText(v.guid)]
  }

  function RowsText(vs: seq<Variable>, first: nat, n: nat): seq<Text> {
    if n == 0 then []
    else RowsText(vs, first, n - 1) + if first + n - 1 < |vs| then RowText(vs[first + n - 1]) else []
  }

  lemma {:induction false} NoMoreRows(vs: seq<Variable>, first: nat, m: nat, n: nat)
    requires m <= n && first + m >= |vs|
    ensures RowsText(vs, first, n) == RowsText(vs, first, m)
    decreases n
  {
    if m < n {
      NoMoreRows(vs, first, m, n - 1);
    }
  }

  const CAPTIONS: seq<Text> := [Caption(0), Caption(1), Caption(2), Caption(3)]

  function FullText(m: Model, rows: nat): seq<Text>
    requires Selectable(m)
  {
    [Title, Help] + HeaderText(HeaderOf(m.variables, m.selected, m.first, rows)) + CAPTIONS
    + RowsText(m.variables, m.first, rows)
  }

  predicate Selectable(m: Model) {
    m.variables == [] || m.selected < |m.variables|
  }

  function FullList(m: Model, c: Context): (s: Screen)
    requires Selectable(m)
    ensures c.graphics ==> s.List? && |s.rows| == c.rows
  {
    if c.graphics then
      List(HeaderOf(m.variables, m.selected, m.first, c.rows),
           seq(c.rows, r requires 0 <= r < c.rows => RowOf(m.variables, m.selected, m.first + r)))
    else Console(FullText(m, c.rows))
  }

  // The selection is made valid and scrolled into view.
  function Normalized(m: Model, rows: nat): (n: Model)
    ensures n.variables == m.variables
    ensures n.variables != [] ==> n.selected < |n.variables| && n.first <= n.selected
    ensures n.variables != [] && rows > 0 ==> n.selected < n.first + rows
  {
    var count := |m.variables|;
    var selected := if count == 0 then 0 else if m.selected >= count then count - 1 else m.selected;
    var first := if count == 0 then 0 else m.first;
    var up := if selected < first then selected else first;
    m.(selected := selected, detail := m.detail && count != 0,
       first := if rows > 0 && selected >= up + rows then selected - rows + 1 else up)
  }

  // The selection alone is made valid, as after a reload.
  function Clamped(m: Model): (c: Model)
    ensures forall rows: nat :: Normalized(c, rows) == Normalized(m, rows)
  {
    if m.variables != [] && m.selected >= |m.variables| then m.(selected := |m.variables| - 1) else m
  }

  // What the keys that act on a non-empty list do.
  function Moved(m: Model, rows: nat, key: Key, r: Response): Model
    requires m.selected < |m.variables|
  {
    var count := |m.variables|;
    match key
    case Up => if m.selected > 0 then m.(selected := m.selected - 1, detailOffset := 0) else m
    case Down => if m.selected + 1 < count then m.(selected := m.selected + 1, detailOffset := 0) else m
    case PageUp => m.(selected := if m.selected > rows then m.selected - rows else 0, detailOffset := 0)
    case PageDown =>
      m.(selected := if m.selected + rows < count then m.selected + rows else count - 1, detailOffset := 0)
    case Left =>
      if m.detail && m.detailOffset >= HEX_PAGE_BYTES then m.(detailOffset := m.detailOffset - HEX_PAGE_BYTES) else m
    case Right =>
      if m.detail && m.detailOffset + HEX_PAGE_BYTES < m.variables[m.selected].size
      then m.(detailOffset := m.detailOffset + HEX_PAGE_BYTES) else m
    case EditByte => m.(variables := m.variables[m.selected := r.reread], detail := true)
    case EditAttributes =>
      if r.saved then m.(variables := r.loaded, detail := false)
      else m.(variables := m.variables[m.selected := r.reread], detail := true)
    case DeleteVariable => m.(variables := r.loaded, detail := false)
    case _ => m
  }

  // What a key does to the model; None when it ends the editor.
  function Pressed(m: Model, rows: nat, key: Key, r: Response): Option<Model>
    requires Selectable(m)
  {
    if key == Quit || (key == Esc && !m.detail) then None
    else if key == Esc then Some(m.(detail := false))
    else if key == Enter && m.variables != [] then Some(m.(detail := true, detailOffset := 0))
    else if key == Refresh then Some(m.(variables := r.loaded))
    else if m.variables == [] then Some(m)
    else Some(Moved(m, rows, key, r))
  }

  // One turn of the simple form; None is a ReadKeyStroke that failed.
  predicate Turn(m: Model, key: Option<Key>, r: Response, m': Model, rows: nat) {
    Selectable(m) &&
    match key
    case None => m' == m
    case Some(k) => Pressed(m, rows, k, r).Some? && m' == Normalized(Pressed(m, rows, k, r).value, rows)
  }

  predicate Ends(m: Model, key: Option<Key>, r: Response, rows: nat) {
    Selectable(m) && key.Some? && Pressed(m, rows, key.value, r).None?
  }

  // ---- The fast form.

  // A full redraw, of the list or of the detail view.
  function Redrawn(m: Model, c: Context): Screen
    requires Selectable(m)
  {
    if !m.detail || m.variables == [] then FullList(m, c)
    else if c.graphics then Over(DetailView)
    else Console([Foreign])
  }

  // The row of this index in place, if it is visible; on the console it is printed below.
  function RowDrawn(s: Screen, m: Model, index: nat, c: Context): Screen
    requires index < |m.variables|
  {
    if !(m.first <= index < m.first + c.rows) then s
    else
      match s
      case List(h, rows) =>
        if |rows| == c.rows then List(h, rows[index - m.first := RowOf(m.variables, m.selected, index)]) else s
      case Over(_) => s
      case Console(lines) => Console(lines + RowText(m.variables[index]))
  }

  function HeaderDrawn(s: Screen, m: Model, c: Context): Screen
    requires Selectable(m)
  {
    var h := HeaderOf(m.variables, m.selected, m.first, c.rows);
    match s
    case List(_, rows) => List(h, rows)
    case Over(_) => s
    case Console(lines) => Console(lines + HeaderText(h))
  }

  // The incremental redraw: the header, the row that was selected and the one that is.
  function TwoRows(s: Screen, oldSelected: nat, m: Model, c: Context): Screen
    requires m.selected < |m.variables| && oldSelected < |m.variables|
  {
    var one := RowDrawn(HeaderDrawn(s, m, c), m, oldSelected, c);
    if m.selected != oldSelected then RowDrawn(one, m, m.selected, c) else one
  }

  // The keys after which everything is drawn again.
  predicate AsksRedraw(m: Model, rows: nat, key: Key, r: Response)
    requires Selectable(m)
  {
    if key == Esc || key == Refresh then true
    else if m.variables == [] then false
    else
      match key
      case Up => !m.detail && Normalized(Moved(m, rows, key, r), rows).first != m.first
      case Down => !m.detail && Normalized(Moved(m, rows, key, r), rows).first != m.first
      case Left => Moved(m, rows, key, r) != m
      case Right => Moved(m, rows, key, r) != m
      case Other => false
      case _ => true
  }

  // The screen after a key that asked for no redraw.
  function Kept(s: Screen, m: Model, n: Model, c: Context): Screen
    requires Selectable(n)
  {
    if n.selected != m.selected && !m.detail && m.selected < |n.variables| then TwoRows(s, m.selected, n, c) else s
  }

  // A moment when the editor waits for a key: what is on the screen, and the model.
  datatype Wait = Wait(shown: Screen, model: Model)

  // The next wait after a key; None when the editor ends.  A key of None is a
  // ReadKeyStroke that failed.
  function Next(w: Wait, key: Option<Key>, r: Response, c: Context): Option<Wait>
    requires Selectable(w.model)
    ensures Next(w, key, r, c).Some? ==> Selectable(Next(w, key, r, c).value.model)
  {
    var m := w.model;
    if key.None? then Some(w)
    else
      match Pressed(m, c.rows, key.value, r)
      case None => None
      case Some(p) =>
        var n := Normalized(p, c.rows);
        var shown :=
          if AsksRedraw(m, c.rows, key.value, r) then Redrawn(n, c)
          else Kept(w.shown, m, n, c);
        Some(Wait(shown, n))
  }

  // All waits after this one.
  function WaitsAfter(w: Wait, keys: seq<Option<Key>>, responses: seq<Response>, c: Context): (ws: seq<Wait>)
    requires Selectable(w.model) && |keys| == |responses|
    ensures |ws| <= |keys|
    decreases |keys|
  {
    if keys == [] then []
    else
      match Next(w, keys[0], responses[0], c)
      case None => []
      case Some(w') => [w'] + WaitsAfter(w', keys[1..], responses[1..], c)
  }

  function Opened(loaded: seq<Variable>, c: Context): (w: Wait)
    ensures Selectable(w.model)
  {
    var m := Normalized(Model(loaded, 0, 0, false, 0), c.rows);
    Wait(FullList(m, c), m)
  }

  // All waits of a run of the editor.
  function WaitsOf(loaded: seq<Variable>, keys: seq<Option<Key>>, responses: seq<Response>, c: Context): seq<Wait>
    requires |keys| == |responses|
  {
    [Opened(loaded, c)] + WaitsAfter(Opened(loaded, c), keys, responses, c)
  }

  // A loop has seen the waits `ws` of the whole, up to key i.
  ghost predicate WaitedTo(
    ws: seq<Wait>, keys: seq<Option<Key>>, responses: seq<Response>, i: nat, c: Context, whole: seq<Wait>)
  {
    && i <= |keys| == |responses| && ws != [] && Selectable(ws[|ws| - 1].model)
    && ws + WaitsAfter(ws[|ws| - 1], keys[i..], responses[i..], c) == whole
  }

  // It has handled key i as well.
  ghost predicate WaitedOn(
    ws: seq<Wait>, next: Option<Wait>, keys: seq<Option<Key>>, responses: seq<Response>, i: nat, c: Context,
    whole: seq<Wait>)
  {
    if next.None? then ws == whole else WaitedTo(ws + [next.value], keys, responses, i + 1, c, whole)
  }

  lemma WaitTurn(
    ws: seq<Wait>, keys: seq<Option<Key>>, responses: seq<Response>, i: nat, c: Context, whole: seq<Wait>)
    requires WaitedTo(ws, keys, responses, i, c, whole) && i < |keys|
    ensures WaitedOn(ws, Next(ws[|ws| - 1], keys[i], responses[i], c), keys, responses, i, c, whole)
  {
    var w, next := ws[|ws| - 1], Next(ws[|ws| - 1], keys[i], responses[i], c);
    assert keys[i..][1..] == keys[i + 1..] && responses[i..][1..] == responses[i + 1..];
    if next.Some? {
      Assoc(ws, [next.value], WaitsAfter(next.value, keys[i + 1..], responses[i + 1..], c));
    } else {
      assert WaitsAfter(w, keys[i..], responses[i..], c) == [] && ws + [] == ws;
    }
  }

  lemma WaitsStart(loaded: seq<Variable>, keys: seq<Option<Key>>, responses: seq<Response>, c: Context)
    requires |keys| == |responses|
    ensures WaitedTo([Opened(loaded, c)], keys, responses, 0, c, WaitsOf(loaded, keys, responses, c))
  {
    assert keys[0..] == keys && responses[0..] == responses;
  }

  lemma WaitsEnd(ws: seq<Wait>, keys: seq<Option<Key>>, responses: seq<Response>, c: Context, whole: seq<Wait>)
    requires WaitedTo(ws, keys, responses, |keys|, c, whole)
    ensures ws == whole
  {
    assert ws + [] == ws;
  }

  // ---- The fast form against the simple one.

  predicate Coherent(w: Wait, c: Context) {
    && Selectable(w.model)
    && (!w.model.detail ==> w.shown == FullList(w.model, c))
  }

  predicate AllCoherent(ws: seq<Wait>, c: Context) {
    forall i :: 0 <= i < |ws| ==> Coherent(ws[i], c)
  }

  predicate Settled(m: Model, rows: nat) {
    m == Normalized(m, rows)
  }

  // One cell of a list after a row was drawn into it.
  lemma CellAfter(s: Screen, m: Model, index: nat, c: Context, r: nat)
    requires s.List? && |s.rows| == c.rows && r < c.rows && index < |m.variables|
    ensures RowDrawn(s, m, index, c).List? && |RowDrawn(s, m, index, c).rows| == c.rows
    ensures RowDrawn(s, m, index, c).header == s.header
    ensures RowDrawn(s, m, index, c).rows[r] ==
            if m.first + r == index then RowOf(m.variables, m.selected, index) else s.rows[r]
  {
  }

  // With graphics the two rows and the header make the full redraw.
  lemma TwoRowsAreEnough(before: Model, m: Model, c: Context)
    requires c.graphics && m.selected < |m.variables| && before.selected < |m.variables|
    requires m.variables == before.variables && m.first == before.first
    ensures TwoRows(FullList(before, c), before.selected, m, c) == FullList(m, c)
  {
    var s0 := HeaderDrawn(FullList(before, c), m, c);
    var s1 := RowDrawn(s0, m, before.selected, c);
    var s2 := TwoRows(FullList(before, c), before.selected, m, c);
    forall r | 0 <= r < c.rows
      ensures s2.List? && |s2.rows| == c.rows && s2.header == s0.header && s2.rows[r] == FullList(m, c).rows[r]
    {
      CellAfter(s0, m, before.selected, c, r);
      CellAfter(s1, m, m.selected, c, r);
      assert s0.rows[r] == RowOf(m.variables, before.selected, m.first + r);
      assert FullList(m, c).rows[r] == RowOf(m.variables, m.selected, m.first + r);
    }
    assert s2.rows == FullList(m, c).rows;
  }

  lemma FullTextLength(before: Model, m: Model, rows: nat)
    requires m.selected < |m.variables| && before.selected < |m.variables|
    requires m.variables == before.variables && m.first == before.first
    ensures |FullText(before, rows)| == |FullText(m, rows)|
  {
  }

  // On the console they are printed below what is there, which is never the full redraw.
  lemma TwoRowsAreTooMuch(before: Model, m: Model, c: Context)
    requires !c.graphics && m.selected < |m.variables| && before.selected < |m.variables|
    requires m.variables == before.variables && m.first == before.first
    ensures TwoRows(FullList(before, c), before.selected, m, c) != FullList(m, c)
  {
    FullTextLength(before, m, c.rows);
    assert |TwoRows(FullList(before, c), before.selected, m, c).lines| > |FullText(m, c.rows)|;
  }

  // Where the incremental redraw is either enough or never used.
  predicate Reliable(c: Context) {
    c.graphics || c.rows == 1
  }

  predicate ListArrow(m: Model, key: Key) {
    (key == Up || key == Down) && m.variables != [] && !m.detail
  }

  // An arrow key in the list, without scrolling.
  lemma ArrowIsCoherent(w: Wait, key: Key, r: Response, c: Context)
    requires Coherent(w, c) && Settled(w.model, c.rows) && Reliable(c)
    requires ListArrow(w.model, key) && !AsksRedraw(w.model, c.rows, key, r)
    ensures
      var next := Next(w, Some(key), r, c);
      next.Some? && Coherent(next.value, c)
  {
    var m := w.model;
    var n := Normalized(Moved(m, c.rows, key, r), c.rows);
    assert n.variables == m.variables && n.first == m.first && !n.detail;
    if n.selected != m.selected {
      assert c.graphics;
      TwoRowsAreEnough(m, n, c);
    }
  }

  lemma NormalizedIsSettled(m: Model, rows: nat)
    ensures Settled(Normalized(m, rows), rows)
  {
  }

  lemma RedrawIsCoherent(m: Model, c: Context)
    requires Settled(m, c.rows) && Selectable(m)
    ensures Coherent(Wait(Redrawn(m, c), m), c)
  {
  }

  // The other keys that ask for no redraw change nothing, or only what is behind the
  // detail view.
  lemma QuietKey(m: Model, key: Key, r: Response, rows: nat)
    requires Selectable(m) && Settled(m, rows) && !ListArrow(m, key)
    requires Pressed(m, rows, key, r).Some? && !AsksRedraw(m, rows, key, r)
    ensures var n := Normalized(Pressed(m, rows, key, r).value, rows); n == m || (m.detail && n.detail)
  {
  }

  lemma NextIsCoherent(w: Wait, key: Option<Key>, r: Response, c: Context)
    requires Coherent(w, c) && Settled(w.model, c.rows) && Reliable(c)
    ensures
      var next := Next(w, key, r, c);
      next.Some? ==> Coherent(next.value, c) && Settled(next.value.model, c.rows)
  {
    var m := w.model;
    if key.Some? && Pressed(m, c.rows, key.value, r).Some? {
      var p := Pressed(m, c.rows, key.value, r).value;
      NormalizedIsSettled(p, c.rows);
      if AsksRedraw(m, c.rows, key.value, r) {
        RedrawIsCoherent(Normalized(p, c.rows), c);
      } else if ListArrow(m, key.value) {
        ArrowIsCoherent(w, key.value, r, c);
      } else {
        QuietKey(m, key.value, r, c.rows);
      }
    }
  }

  lemma {:induction false} WaitsAreCoherent(w: Wait, keys: seq<Option<Key>>, responses: seq<Response>, c: Context)
    requires |keys| == |responses|
    requires Coherent(w, c) && Settled(w.model, c.rows) && Reliable(c)
    ensures AllCoherent(WaitsAfter(w, keys, responses, c), c)
    decreases |keys|
  {
    if keys != [] && Next(w, keys[0], responses[0], c).Some? {
      NextIsCoherent(w, keys[0], responses[0], c);
      WaitsAreCoherent(Next(w, keys[0], responses[0], c).value, keys[1..], responses[1..], c);
    }
  }

  // Down, once, in a list of two.
  lemma ConsoleGoesWrong(rows: nat, a: Variable, b: Variable, r: Response)
    requires rows != 1
    ensures
      var ws := WaitsOf([a, b], [Some(Down)], [r], Context(rows, false));
      && |ws| == 2 && !ws[1].model.detail && ws[1].shown != FullList(ws[1].model, Context(rows, false))
      && ws[1].shown == Console(ws[0].shown.lines + HeaderText(HeaderOf([a, b], 1, 0, rows))
                                + if rows == 0 then [] else RowText(a) + RowText(b))
  {
    var c, w := Context(rows, false), Opened([a, b], Context(rows, false));
    var m := w.model.(selected := 1);
    assert Next(w, Some(Down), r, c).value.model == m;
    TwoRowsAreTooMuch(w.model, m, c);
    assert [Some(Down)][1..] == [] && WaitsAfter(Next(w, Some(Down), r, c).value, [], [], c) == [];
  }

  ghost predicate AlwaysCoherent(c: Context) {
    forall loaded, keys, responses :: |keys| == |responses| ==> AllCoherent(WaitsOf(loaded, keys, responses, c), c)
  }

  // Over all lists, keys and answers: the list on the screen is what a full redraw would
  // show, at every wait, if and only if there are graphics, or just one row is visible.
  lemma CoherentExactly(c: Context)
    ensures AlwaysCoherent(c) <==> Reliable(c)
  {
    if Reliable(c) {
      forall loaded, keys: seq<Option<Key>>, responses: seq<Response> | |keys| == |responses|
        ensures AllCoherent(WaitsOf(loaded, keys, responses, c), c)
      {
        RunHolds(loaded, keys, responses, c);
      }
    } else {
      var v := Variable("", 0, 0, 0);
      var r := Response([], v, false);
      ConsoleGoesWrong(c.rows, v, v, r);
      assert !AllCoherent(WaitsOf([v, v], [Some(Down)], [r], c), c);
    }
  }

  // ---- The model behind the screen, on any screen.

  // Each wait follows from the one before by a turn of the simple form, and a run that
  // stops before the keys are used up was ended by one.
  ghost predicate Recorded(ws: seq<Wait>, keys: seq<Option<Key>>, responses: seq<Response>, rows: nat)
    decreases |keys|
  {
    && |responses| == |keys| && ws != []
    && if keys == [] then |ws| == 1
       else if |ws| == 1 then Ends(ws[0].model, keys[0], responses[0], rows)
       else
         && Turn(ws[0].model, keys[0], responses[0], ws[1].model, rows)
         && Recorded(ws[1..], keys[1..], responses[1..], rows)
  }

  lemma {:induction false} WaitsAreTurns(w: Wait, keys: seq<Option<Key>>, responses: seq<Response>, c: Context)
    requires |keys| == |responses| && Selectable(w.model) && Settled(w.model, c.rows)
    ensures Recorded([w] + WaitsAfter(w, keys, responses, c), keys, responses, c.rows)
    decreases |keys|
  {
    var ws := [w] + WaitsAfter(w, keys, responses, c);
    if keys != [] && Next(w, keys[0], responses[0], c).Some? {
      var next := Next(w, keys[0], responses[0], c).value;
      WaitsAreTurns(next, keys[1..], responses[1..], c);
      assert ws[1..] == [next] + WaitsAfter(next, keys[1..], responses[1..], c);
    }
  }

  // What holds of every run.
  lemma RunHolds(loaded: seq<Variable>, keys: seq<Option<Key>>, responses: seq<Response>, c: Context)
    requires |keys| == |responses|
    ensures Recorded(WaitsOf(loaded, keys, responses, c), keys, responses, c.rows)
    ensures Reliable(c) ==> AllCoherent(WaitsOf(loaded, keys, responses, c), c)
  {
    WaitsAreTurns(Opened(loaded, c), keys, responses, c);
    if Reliable(c) {
      WaitsAreCoherent(Opened(loaded, c), keys, responses, c);
    }
  }
}
