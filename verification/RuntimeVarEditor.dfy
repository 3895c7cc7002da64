// RuntimeVarEditor.c: the event loop of the variable list, drawing with graphics or printing
// on the text console.  Moving the selection redraws two rows and the header only.
module RuntimeVarEditor {
  import opened Bytes
  import opened RuntimeVariables
  import opened RuntimeVarScreen
  import opened RuntimeVarKeys

  class Editor {
    const context: Context
    var mode: Mode
    var header: Header
    var cells: array<Row>
    var lines: seq<Text>
    var variables: seq<Variable>
    var selected: nat
    var first: nat
    var detail: bool
    var detailOffset: nat
    var fullRedraw: bool
    // What the user saw, and the model behind it, each time the editor waited for a key.
    ghost var waits: seq<Wait>

    ghost function State(): Model
      reads this
    {
      Model(variables, selected, first, detail, detailOffset)
    }

    ghost function Display(): Screen
      reads this, cells
    {
      if !context.graphics then Console(lines)
      else if mode == ListView then List(header, cells[..])
      else Over(mode)
    }

    ghost predicate Valid()
      reads this
    {
      cells.Length == context.rows
    }

    constructor (height: nat, graphics: bool, loaded: seq<Variable>)
      ensures Valid() && fresh(cells) && context == Context(VisibleRows(height), graphics)
      ensures State() == Model(loaded, 0, 0, false, 0) && fullRedraw && waits == []
    {
      context := Context(VisibleRows(height), graphics);
      mode, header, lines := Prompt, Header(0, 0, 0, 0, None), [];
      cells := new Row[VisibleRows(height)](_ => Empty);
      variables, selected, first, detail, detailOffset, fullRedraw := loaded, 0, 0, false, 0, true;
      waits := [];
    }

    // The header, in its place, or printed.
    method DrawSelectionInfo()
      requires variables == [] || selected < |variables|
      modifies this`header, this`lines
      ensures Display() == HeaderDrawn(old(Display()), State(), context)
      ensures context.graphics ==> header == HeaderOf(variables, selected, first, context.rows)
    {
      var last := if variables == [] then 0 else first + context.rows;
      if last > |variables| {
        last := |variables|;
      }
      var h := Header(|variables|, if variables == [] then 0 else selected + 1,
                      if variables == [] then 0 else first + 1, last,
                      if variables == [] then None else Some(variables[selected]));
      if context.graphics {
        header := h;
      } else {
        lines := lines + HeaderText(h);
      }
    }

    // RveDrawList: clear, header, and every visible row.
    method DrawList()
      requires Valid() && (variables == [] || selected < |variables|)
      modifies this`mode, this`header, this`lines, cells
      ensures Valid() && Display() == FullList(State(), context)
    {
      mode := ListView;
      if context.graphics {
        forall r | 0 <= r < cells.Length {
          cells[r] := Empty;
        }
        DrawSelectionInfo();
        DrawCells();
      } else {
        lines := [Title, Help];
        DrawSelectionInfo();
        lines := lines + CAPTIONS;
        PrintRows();
      }
    }

    // The rows, drawn on a cleared screen.
    method DrawCells()
      requires Valid() && forall r :: 0 <= r < context.rows ==> cells[r] == Empty
      modifies cells
      ensures forall r :: 0 <= r < context.rows ==> cells[r] == RowOf(variables, selected, first + r)
    {
      var row := 0;
      while row < context.rows
        invariant 0 <= row <= context.rows
        invariant forall r :: 0 <= r < row ==> cells[r] == RowOf(variables, selected, first + r)
        invariant forall r :: row <= r < context.rows ==> cells[r] == Empty
      {
        var index := first + row;
        if index >= |variables| {
          break;
        }
        cells[row] := Shown(variables[index], index == selected);
        row := row + 1;
      }
    }

    // The rows, printed.
    method PrintRows()
      modifies this`lines
      ensures lines == old(lines) + RowsText(variables, first, context.rows)
    {
      var row := 0;
      while row < context.rows
        invariant 0 <= row <= context.rows
        invariant lines == old(lines) + RowsText(variables, first, row)
      {
        var index := first + row;
        if index >= |variables| {
          NoMoreRows(variables, first, row, context.rows);
          break;
        }
        lines := lines + RowText(variables[index]);
        row := row + 1;
      }
    }

    // RveDrawListRow: one row, placed by its distance from the first, or printed.
    method DrawListRow(index: nat)
      requires Valid() && index < |variables| && index < first + context.rows
      modifies this`lines, cells
      ensures Display() == RowDrawn(old(Display()), State(), index, context)
    {
      if index < first {
        return;
      }
      if context.graphics {
        cells[index - first] := Shown(variables[index], index == selected);
      } else {
        lines := lines + RowText(variables[index]);
      }
    }

    // RveRedrawListSelection: the header, the row that was selected and the one that is.
    method RedrawListSelection(oldSelected: nat)
      requires Valid() && selected < |variables| && oldSelected < |variables|
      modifies this`header, this`lines, cells
      ensures Display() == TwoRows(old(Display()), oldSelected, State(), context)
    {
      DrawSelectionInfo();
      if first <= oldSelected < first + context.rows {
        DrawListRow(oldSelected);
      }
      if selected != oldSelected && first <= selected < first + context.rows {
        DrawListRow(selected);
      }
    }

    // RveDrawDetails, which clears the screen first.
    method DrawDetails()
      requires detail && variables != [] && selected < |variables|
      modifies this`mode, this`lines
      ensures Display() == Redrawn(State(), context)
    {
      mode, lines := DetailView, [Foreign];
    }

    // Anything a prompt draws.
    method DrawPrompt()
      modifies this`mode, this`lines
    {
      mode, lines := Prompt, lines + [Foreign];
    }

    // The start of each turn: make the selection valid and scroll to it.
    method Scroll()
      modifies this`selected, this`first, this`detail
      ensures State() == Normalized(old(State()), context.rows) && Display() == old(Display())
    {
      var count := |variables|;
      if count == 0 {
        selected, first, detail := 0, 0, false;
      } else if selected >= count {
        selected := count - 1;
      }
      if selected < first {
        first := selected;
      }
      if context.rows > 0 && selected >= first + context.rows {
        first := selected - context.rows + 1;
      }
    }

    // Then redraw if asked to.
    method Prepare()
      requires Valid()
      modifies this, cells
      ensures Valid() && cells == old(cells) && waits == old(waits) && !fullRedraw
      ensures State() == Normalized(old(State()), context.rows)
      ensures Display() == if old(fullRedraw) then Redrawn(State(), context) else old(Display())
    {
      Scroll();
      if fullRedraw {
        if detail && |variables| > 0 {
          DrawDetails();
        } else {
          DrawList();
        }
        fullRedraw := false;
      }
    }

    // One key.  The arrow keys try the two-row redraw; everything else asks for a full one
    // or changes nothing that is shown.
    method HandleKey(key: Key, r: Response) returns (quit: bool)
      requires Valid() && !fullRedraw && Settled(State(), context.rows)
      modifies this, cells
      ensures Valid() && cells == old(cells) && waits == old(waits)
      ensures quit <==> Pressed(old(State()), context.rows, key, r).None?
      ensures quit ==> State() == old(State()) && Display() == old(Display())
      ensures !quit ==>
        && Normalized(State(), context.rows) ==
           Normalized(Pressed(old(State()), context.rows, key, r).value, context.rows)
        && (fullRedraw <==> AsksRedraw(old(State()), context.rows, key, r))
        && (!fullRedraw ==> Display() == Kept(old(Display()), old(State()), Normalized(State(), context.rows), context))
    {
      quit := false;
      if key == Quit {
        return true;
      }
      if key == Esc {
        if detail {
          detail, fullRedraw := false, true;
        } else {
          quit := true;
        }
        return;
      }
      if key == Enter && |variables| > 0 {
        detail, detailOffset, fullRedraw := true, 0, true;
        return;
      }
      if key == Refresh {
        variables, fullRedraw := r.loaded, true;
        return;
      }
      if |variables| == 0 {
        return;
      }
      if key == Up || key == Down {
        MoveSelection(key, r);
      } else {
        ActOnSelection(key, r);
      }
    }

    // The other keys of a non-empty list.
    method ActOnSelection(key: Key, r: Response)
      requires key != Up && key != Down
      requires Valid() && !fullRedraw && selected < |variables|
      requires key != Esc && key != Enter && key != Quit && key != Refresh
      modifies this
      ensures Valid() && cells == old(cells) && waits == old(waits)
      ensures
        var m := Moved(old(State()), context.rows, key, r);
        State() == m || State() == Clamped(m)
      ensures fullRedraw <==> AsksRedraw(old(State()), context.rows, key, r)
      ensures !fullRedraw ==> State() == old(State()) && Display() == old(Display())
    {
      match key {
        case PageUp =>
          selected, detailOffset, fullRedraw := if selected > context.rows then selected - context.rows else 0, 0, true;
        case PageDown =>
          selected := if selected + context.rows < |variables| then selected + context.rows else |variables| - 1;
          detailOffset, fullRedraw := 0, true;
        case Left =>
          if detail && detailOffset >= HEX_PAGE_BYTES {
            detailOffset, fullRedraw := detailOffset - HEX_PAGE_BYTES, true;
          }
        case Right =>
          if detail && detailOffset + HEX_PAGE_BYTES < variables[selected].size {
            detailOffset, fullRedraw := detailOffset + HEX_PAGE_BYTES, true;
          }
        case EditByte =>
          DrawPrompt();
          variables := variables[selected := r.reread];
          detail, fullRedraw := true, true;
        case EditAttributes =>
          DrawPrompt();
          if r.saved {
            Reloaded(r.loaded);
          } else {
            variables := variables[selected := r.reread];
            detail, fullRedraw := true, true;
          }
        case DeleteVariable =>
          DrawPrompt();
          Reloaded(r.loaded);
        case _ =>
      }
    }

    // After a variable was written or deleted the whole list is loaded again.
    method Reloaded(loaded: seq<Variable>)
      modifies this`variables, this`selected, this`detail, this`fullRedraw
      ensures variables == loaded && !detail && fullRedraw
      ensures selected == if loaded != [] && old(selected) >= |loaded| then |loaded| - 1 else old(selected)
    {
      variables := loaded;
      if selected >= |variables| && |variables| > 0 {
        selected := |variables| - 1;
      }
      detail, fullRedraw := false, true;
    }

    // The arrow keys, in the switch over scan codes.
    method StepSelection(key: Key, ghost r: Response) returns (selectionKey: bool)
      requires (key == Up || key == Down) && selected < |variables|
      modifies this`selected, this`detailOffset
      ensures State() == Moved(old(State()), context.rows, key, r) && Display() == old(Display())
      ensures selectionKey <==> selected != old(selected) && !detail
    {
      selectionKey := false;
      if key == Up {
        if selected > 0 {
          selected, detailOffset, selectionKey := selected - 1, 0, !detail;
        }
      } else {
        if selected + 1 < |variables| {
          selected, detailOffset, selectionKey := selected + 1, 0, !detail;
        }
      }
    }

    // The selection is scrolled into view.
    method ScrollToSelection()
      requires selected < |variables|
      modifies this`first
      ensures State() == Normalized(old(State()), context.rows) && Display() == old(Display())
    {
      if selected < first {
        first := selected;
      }
      if context.rows > 0 && selected >= first + context.rows {
        first := selected - context.rows + 1;
      }
    }

    // What follows an arrow key: in the list, without scrolling, the two-row redraw is
    // tried at once.
    method MoveSelection(key: Key, r: Response)
      requires key == Up || key == Down
      requires Valid() && !fullRedraw && Settled(State(), context.rows) && variables != []
      modifies this, cells
      ensures Valid() && cells == old(cells) && waits == old(waits)
      ensures Normalized(State(), context.rows) == Normalized(Moved(old(State()), context.rows, key, r), context.rows)
      ensures fullRedraw <==> AsksRedraw(old(State()), context.rows, key, r)
      ensures !fullRedraw ==>
        Display() == Kept(old(Display()), old(State()), Normalized(State(), context.rows), context)
    {
      var oldSelected, oldFirst := selected, first;
      var selectionKey := StepSelection(key, r);
      if selectionKey && selected != oldSelected {
        ScrollToSelection();
        var scrollChanged := first != oldFirst;
        if !scrollChanged && !detail {
          RedrawListSelection(oldSelected);
          fullRedraw := false;
          return;
        }
        fullRedraw := true;
      }
    }

    // gBS->WaitForEvent: the screen as it is now is what the user looks at.
    method WaitForEvent()
      modifies this`waits
      ensures waits == old(waits) + [Wait(Display(), State())]
    {
      waits := waits + [Wait(Display(), State())];
    }

    // One turn of the loop in RveRun after the wait, up to the next one.
    method TakeTurn(key: Option<Key>, r: Response) returns (quit: bool)
      requires Valid() && !fullRedraw && Settled(State(), context.rows)
      modifies this, cells
      ensures Valid() && cells == old(cells) && waits == old(waits)
      ensures !quit ==> !fullRedraw && Settled(State(), context.rows)
      ensures Next(old(Wait(Display(), State())), key, r, context) ==
              if quit then None else Some(Wait(Display(), State()))
      ensures quit ==> State() == old(State()) && Display() == old(Display())
    {
      quit := false;
      if key.Some? {
        quit := HandleKey(key.value, r);
        if quit {
          return;
        }
      }
      Prepare();
    }

    // The waits so far are those of the whole run up to key i, and the last is now.
    ghost predicate Waiting(
        keys: seq<Option<Key>>, responses: seq<Response>, i: nat, whole: seq<Wait>)
      reads this, cells
    {
      && Valid() && !fullRedraw && Settled(State(), context.rows)
      && waits != [] && waits[|waits| - 1] == Wait(Display(), State())
      && WaitedTo(waits, keys, responses, i, context, whole)
    }

    // One turn of the loop and the next wait.
    method TurnAndWait(keys: seq<Option<Key>>, responses: seq<Response>, i: nat, ghost whole: seq<Wait>)
      returns (quit: bool)
      requires i < |keys| == |responses| && Waiting(keys, responses, i, whole)
      modifies this, cells
      ensures cells == old(cells)
      ensures !quit ==> Waiting(keys, responses, i + 1, whole)
      ensures quit ==> waits == whole && waits != [] && waits[|waits| - 1] == Wait(Display(), State())
    {
      WaitTurn(waits, keys, responses, i, context, whole);
      quit := TakeTurn(keys[i], responses[i]);
      if !quit {
        WaitForEvent();
      }
    }

    // The loop of RveRun, from the first wait on.
    method TakeTurns(keys: seq<Option<Key>>, responses: seq<Response>, ghost whole: seq<Wait>)
      requires |keys| == |responses| && Waiting(keys, responses, 0, whole)
      modifies this, cells
      ensures waits == whole && waits != [] && waits[|waits| - 1] == Wait(Display(), State())
    {
      var i := 0;
      while i < |keys|
        invariant 0 <= i <= |keys| && cells == old(cells)
        invariant Waiting(keys, responses, i, whole)
      {
        var quit := TurnAndWait(keys, responses, i, whole);
        if quit {
          break;
        }
        i := i + 1;
      }
      if i == |keys| {
        WaitsEnd(waits, keys, responses, context, whole);
      }
    }

    // RveRun over a sequence of key events; None is a ReadKeyStroke that failed.
    method Run(keys: seq<Option<Key>>, responses: seq<Response>)
      requires Valid() && fullRedraw && waits == [] && |responses| == |keys|
      requires selected == first == detailOffset == 0 && !detail
      modifies this, cells
      ensures waits == WaitsOf(old(variables), keys, responses, context)
      ensures waits[|waits| - 1] == Wait(Display(), State())
      ensures KeysObeyed(waits, keys, responses, context.rows)
      ensures Recorded(waits, keys, responses, context.rows)
      ensures Reliable(context) ==> AllCoherent(waits, context)
    {
      ghost var loaded := variables;
      ghost var whole := WaitsOf(loaded, keys, responses, context);
      Prepare();
      WaitForEvent();
      WaitsStart(loaded, keys, responses, context);
      TakeTurns(keys, responses, whole);
      RunHolds(loaded, keys, responses, context);
      RunObeys(whole, keys, responses, context.rows);
    }
  }
}
