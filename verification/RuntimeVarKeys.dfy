// RuntimeVarEditor.c: what the keys do to the list, and what the list view tells about it,
// said of the models and screens at the waits for a key.
module RuntimeVarKeys {
  import opened Bytes
  import opened RuntimeVariables
  import opened RuntimeVarScreen

  // ---- The keys.

  // Nothing but the selection, the scrolling and the offset differs.
  predicate SameList(m: Model, m': Model) {
    m'.variables == m.variables && m'.detail == m.detail
  }

  predicate SelectionKept(m: Model, m': Model) {
    m'.selected == m.selected && m'.first == m.first
  }

  // Only this variable was read again.
  predicate ReadAgain(m: Model, r: Response, m': Model)
    requires m.selected < |m.variables|
  {
    && |m'.variables| == |m.variables|
    && (forall i :: 0 <= i < |m.variables| ==>
          m'.variables[i] == if i == m.selected then r.reread else m.variables[i])
    && SelectionKept(m, m') && m'.detail && m'.detailOffset == m.detailOffset
  }

  // The list was loaded again; the selection stays at its number, or goes to the last.
  predicate LoadedAgain(m: Model, r: Response, m': Model) {
    && m'.variables == r.loaded && m'.detailOffset == m.detailOffset
    && (m.selected < |r.loaded| ==> m'.selected == m.selected)
    && (0 < |r.loaded| <= m.selected ==> m'.selected == |r.loaded| - 1)
  }

  // The rows scroll no further than it takes to show the selection.
  predicate Scrolled(m: Model, m': Model, rows: nat) {
    m'.variables != [] && rows > 0 ==>
      && m'.first <= m'.selected < m'.first + rows
      && (m.first <= m'.selected < m.first + rows ==> m'.first == m.first)
      && (m'.selected < m.first ==> m'.first == m'.selected)
      && (m'.selected >= m.first + rows ==> m'.first + rows == m'.selected + 1)
  }

  // From one wait to the next, in a list that is not empty.
  predicate KeyMoves(m: Model, key: Key, r: Response, m': Model, rows: nat)
    requires m.selected < |m.variables|
  {
    var count := |m.variables|;
    match key
    case Up =>
      if m.selected == 0 then m' == m
      else SameList(m, m') && m'.selected + 1 == m.selected && m'.detailOffset == 0
    case Down =>
      if m.selected == count - 1 then m' == m
      else SameList(m, m') && m'.selected == m.selected + 1 && m'.detailOffset == 0
    case PageUp =>
      && SameList(m, m') && m'.detailOffset == 0 && m'.selected <= m.selected
      && (m'.selected + rows == m.selected || (m'.selected == 0 && m.selected <= rows))
    case PageDown =>
      && SameList(m, m') && m'.detailOffset == 0 && m.selected <= m'.selected < count
      && (m'.selected == m.selected + rows || (m'.selected == count - 1 && count <= m.selected + rows))
    case Left =>
      && SameList(m, m') && SelectionKept(m, m')
      && if m.detail && m.detailOffset >= 256 then m'.detailOffset + 256 == m.detailOffset
         else m'.detailOffset == m.detailOffset
    case Right =>
      && SameList(m, m') && SelectionKept(m, m')
      && if m.detail && m.detailOffset + 256 < m.variables[m.selected].size
         then m'.detailOffset == m.detailOffset + 256
         else m'.detailOffset == m.detailOffset
    case Enter => m'.variables == m.variables && SelectionKept(m, m') && m'.detail && m'.detailOffset == 0
    case EditByte => ReadAgain(m, r, m')
    case EditAttributes => if r.saved then LoadedAgain(m, r, m') && !m'.detail else ReadAgain(m, r, m')
    case DeleteVariable => LoadedAgain(m, r, m') && !m'.detail
    case _ => m' == m
  }

  // From one wait to the next, whatever the list.
  predicate KeyEffect(m: Model, key: Key, r: Response, m': Model, rows: nat)
    requires Selectable(m)
  {
    && Scrolled(m, m', rows)
    && match key
       case Quit => false
       case Esc => m.detail && m'.variables == m.variables && SelectionKept(m, m') && !m'.detail
       case Refresh => LoadedAgain(m, r, m') && m'.detail == (m.detail && r.loaded != [])
       case _ => if m.variables == [] then m' == m else KeyMoves(m, key, r, m', rows)
  }

  predicate EndingKey(m: Model, key: Option<Key>) {
    key.Some? && (key.value == Quit || (key.value == Esc && !m.detail))
  }

  lemma TurnScrolls(m: Model, key: Key, r: Response, m': Model, rows: nat)
    requires Turn(m, Some(key), r, m', rows) && Settled(m, rows)
    ensures Scrolled(m, m', rows)
  {
    var p := Pressed(m, rows, key, r).value;
    assert p.first == m.first;
  }

  lemma TurnMoves(m: Model, key: Key, r: Response, m': Model, rows: nat)
    requires Turn(m, Some(key), r, m', rows) && Settled(m, rows) && m.variables != []
    requires key != Quit && key != Esc && key != Refresh
    ensures KeyMoves(m, key, r, m', rows)
  {
  }

  lemma TurnObeys(m: Model, key: Key, r: Response, m': Model, rows: nat)
    requires Turn(m, Some(key), r, m', rows) && Settled(m, rows)
    ensures KeyEffect(m, key, r, m', rows) && Settled(m', rows)
  {
    TurnScrolls(m, key, r, m', rows);
    NormalizedIsSettled(Pressed(m, rows, key, r).value, rows);
    if key != Esc && key != Refresh && m.variables != [] {
      TurnMoves(m, key, r, m', rows);
    }
  }

  // Of two waits in a row.
  predicate Obeyed(m: Model, key: Option<Key>, r: Response, m': Model, rows: nat)
    requires Selectable(m)
  {
    if key.None? then m' == m else KeyEffect(m, key.value, r, m', rows)
  }

  // The key between waits i and i + 1.
  predicate ObeyedAt(ws: seq<Wait>, keys: seq<Option<Key>>, responses: seq<Response>, i: nat, rows: nat)
    requires i + 1 < |ws| && i < |keys| == |responses|
  {
    && Selectable(ws[i].model) && !EndingKey(ws[i].model, keys[i])
    && Obeyed(ws[i].model, keys[i], responses[i], ws[i + 1].model, rows)
  }

  // Every key had its effect, and the editor ended at the first key that ends it, or with
  // the keys.
  ghost predicate KeysObeyed(ws: seq<Wait>, keys: seq<Option<Key>>, responses: seq<Response>, rows: nat) {
    && 0 < |ws| <= |keys| + 1 && |responses| == |keys|
    && (forall i: nat :: i + 1 < |ws| ==> ObeyedAt(ws, keys, responses, i, rows))
    && (|ws| <= |keys| ==> EndingKey(ws[|ws| - 1].model, keys[|ws| - 1]))
  }

  lemma FirstObeyed(ws: seq<Wait>, keys: seq<Option<Key>>, responses: seq<Response>, rows: nat)
    requires Recorded(ws, keys, responses, rows) && |ws| > 1 && Settled(ws[0].model, rows)
    ensures |keys| == |responses| > 0 && ObeyedAt(ws, keys, responses, 0, rows) && Settled(ws[1].model, rows)
  {
    if keys[0].Some? {
      TurnObeys(ws[0].model, keys[0].value, responses[0], ws[1].model, rows);
    }
  }

  lemma LaterObeyed(ws: seq<Wait>, keys: seq<Option<Key>>, responses: seq<Response>, i: nat, rows: nat)
    requires |keys| == |responses| && 0 < i < |keys| && i + 1 < |ws|
    requires ObeyedAt(ws[1..], keys[1..], responses[1..], i - 1, rows)
    ensures ObeyedAt(ws, keys, responses, i, rows)
  {
    assert ws[1..][i - 1] == ws[i] && ws[1..][i] == ws[i + 1];
  }

  lemma {:induction false} RunObeys(ws: seq<Wait>, keys: seq<Option<Key>>, responses: seq<Response>, rows: nat)
    requires Recorded(ws, keys, responses, rows) && Settled(ws[0].model, rows)
    ensures KeysObeyed(ws, keys, responses, rows)
    decreases |keys|
  {
    if |ws| > 1 {
      FirstObeyed(ws, keys, responses, rows);
      RunObeys(ws[1..], keys[1..], responses[1..], rows);
      forall i: nat | i + 1 < |ws|
        ensures ObeyedAt(ws, keys, responses, i, rows)
      {
        if i > 0 {
          LaterObeyed(ws, keys, responses, i, rows);
        }
      }
    }
  }

  // Keys that undo one another.
  lemma KeysUndo(
    m: Model, key: Key, r: Response, m1: Model, undo: Key, r1: Response, m2: Model, rows: nat)
    requires m.selected < |m.variables| && Settled(m, rows)
    requires Turn(m, Some(key), r, m1, rows) && Turn(m1, Some(undo), r1, m2, rows)
    ensures key == Down && undo == Up && m.selected + 1 < |m.variables| ==> m2.selected == m.selected
    ensures key == Up && undo == Down && m.selected > 0 ==> m2.selected == m.selected
    ensures key == Right && undo == Left && m1 != m ==> m2 == m
    ensures key == Left && undo == Right && m1 != m && m.detailOffset < m.variables[m.selected].size ==> m2 == m
    ensures key == Enter && undo == Esc && !m.detail ==> m2 == m.(detailOffset := 0)
  {
    TurnObeys(m, key, r, m1, rows);
    TurnObeys(m1, undo, r1, m2, rows);
  }

  // ---- The list view.

  // The header's numbers are those of the rows: row r shows entry number header.first + r of
  // the list, the header's variable is the selected one, and that one alone is highlighted.
  lemma ListShows(m: Model, c: Context, r: nat)
    requires c.graphics && Selectable(m) && Settled(m, c.rows) && r < c.rows
    ensures
      var s := FullList(m, c);
      && s.header.count == |m.variables|
      && (m.variables == [] ==> s.rows[r] == Empty && s.header.selected == 0 && s.header.variable == None)
      && (m.variables != [] ==>
            && 1 <= s.header.first <= s.header.selected <= s.header.last <= |m.variables|
            && s.header.variable == Some(m.variables[s.header.selected - 1]) && s.header.selected == m.selected + 1
            && (s.rows[r].Shown? <==> s.header.first + r <= s.header.last)
            && (s.rows[r].Shown? ==>
                  && s.rows[r].variable == m.variables[s.header.first + r - 1]
                  && (s.rows[r].highlighted <==> s.header.first + r == s.header.selected)))
  {
    assert FullList(m, c).rows[r] == RowOf(m.variables, m.selected, m.first + r);
  }

  // On the console the same numbers are the third line, below the title and the keys.
  lemma ConsoleHeader(m: Model, rows: nat)
    requires Selectable(m) && Settled(m, rows)
    ensures
      var t, count := FullText(m, rows), |m.variables|;
      var last := if m.first + rows < count then m.first + rows else count;
      && |t| >= 3 && t[0] == Title && t[1] == Help
      && (count == 0 ==> t[2] == Summary(0, 0, 0, 0))
      && (count > 0 ==>
            && t[2] == Summary(count, m.selected + 1, m.first + 1, last)
            && |t| >= 5 && t[3] == Selection(m.variables[m.selected].name, m.variables[m.selected].size)
            && t[4] == SelectionGuid(m.variables[m.selected].guid, m.variables[m.selected].attributes))
  {
  }

  // On the console the lines of the visible variables are printed one after the other.
  lemma {:induction false} ConsoleShows(vs: seq<Variable>, first: nat, n: nat, r: nat)
    requires r < n && first + r < |vs|
    ensures
      var t, v := RowsText(vs, first, n), vs[first + r];
      && |t| >= 4 * r + 4
      && t[4 * r..4 * r + 4] == [NameText(v.name), AttributesText(v.attributes), SizeText(v.size), GuidText(v.guid)]
  {
    var before := RowsText(vs, first, n - 1);
    if r < n - 1 {
      ConsoleShows(vs, first, n - 1, r);
      assert RowsText(vs, first, n)[4 * r..4 * r + 4] == before[4 * r..4 * r + 4];
    } else {
      RowsTextLength(vs, first, r);
    }
  }

  lemma {:induction false} RowsTextLength(vs: seq<Variable>, first: nat, n: nat)
    requires first + n <= |vs|
    ensures |RowsText(vs, first, n)| == 4 * n
  {
    if n > 0 {
      RowsTextLength(vs, first, n - 1);
    }
  }
}
