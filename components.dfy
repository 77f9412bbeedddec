/** The result list of src/tui_components.rs: `get_list` renders rows near
    the selection as coloured spans split at the matched positions and
    every other row as its bare path; `get_total_item_no` renders the
    "shown/total" counter.  The heap the rows come from is iterated in an
    unspecified order, so the rows are a given sequence here. */
module TuiComponents {
  import opened RustText
  import Config

  /** A candidate row: the path and the positions the matcher highlighted. */
  datatype PathItem = PathItem(path: string, indices: seq<nat>)

  /** The part of a ratatui `Style` the list sets: a foreground colour and
      whether the bold modifier is added. */
  datatype Style = Style(fg: Config.Color, bold: bool)

  datatype Span = Span(text: string, style: Style)

  /** A `ListItem` built from a bare string, or from a line of spans. */
  datatype ListItem = Plain(text: string) | Styled(spans: seq<Span>)

  // ---------------------------------------------------------------------
  // The visible window

  /** The row the window is centred on: the selection, or 0 without one. */
  function Cursor(curr: Option<Usize>): Usize {
    curr.GetOr(0)
  }

  /** Row `i` is rendered with spans: `cur.saturating_sub(rows) <= i` and
      `i < cur + rows`, the sum wrapping as a release build does. */
  predicate InWindow(i: nat, rows: U16, curr: Option<Usize>) {
    var cur := Cursor(curr);
    SaturatingSub(cur, rows) <= i && i < WrappingAdd(cur, rows)
  }

  /** Without wrap-around the window holds at most `rows` rows above the
      cursor and `rows - 1` below it; so it holds the cursor itself exactly
      when `rows > 0`. */
  lemma WindowAroundCursor(i: nat, rows: U16, curr: Option<Usize>)
    requires Cursor(curr) + rows < USIZE_LIMIT
    ensures InWindow(i, rows, curr) <==>
      (if i < Cursor(curr) then Cursor(curr) - i <= rows else i - Cursor(curr) < rows)
    ensures InWindow(Cursor(curr), rows, curr) <==> rows > 0
  {
  }

  /** When `cur + rows` wraps, the window is empty: no row gets spans, not
      even the selected one. */
  lemma WrappedWindowIsEmpty(i: nat, rows: U16, curr: Option<Usize>)
    requires Cursor(curr) + rows >= USIZE_LIMIT
    ensures !InWindow(i, rows, curr)
  {
  }

  // ---------------------------------------------------------------------
  // Splitting a path into spans

  /** What the loop over `item.indices` has pushed after the given indices,
      and the position it has reached, or None once a slice panics: the
      plain slice `[pos, ind)` panics when `ind < pos`, the highlighted
      slice `[ind, ind + 1)` when `ind` is not below the length. */
  function Pushed(path: string, indices: seq<nat>, style: Style, highlight: Style): (r: Option<(seq<Span>, nat)>)
    ensures r.Some? ==> r.value.1 <= |path|
    ensures r.Some? ==> forall k :: 0 <= k < |indices| ==> indices[k] < r.value.1
    ensures r.Some? && indices == [] ==> r.value.1 == 0
    ensures r.Some? && indices != [] ==> r.value.1 == indices[|indices| - 1] + 1
    decreases |indices|
  {
    if indices == [] then Some(([], 0))
    else
      match Pushed(path, indices[..|indices| - 1], style, highlight)
      case None => None
      case Some((spans, pos)) =>
        var ind := indices[|indices| - 1];
        if pos <= ind < |path| then
          assert forall k :: 0 <= k < |indices| - 1 ==> indices[..|indices| - 1][k] == indices[k];
          Some((spans + [Span(path[pos..ind], style), Span(path[ind..ind + 1], highlight)], ind + 1))
        else None
  }

  /** `item.path.len() - 1` as unsigned arithmetic: 0 wraps to the largest
      `usize`. */
  function LastIndex(len: nat): nat {
    if len == 0 then USIZE_LIMIT - 1 else len - 1
  }

  /** The spans of a row in the window, or None when a slice panics: the
      pushed spans, then the rest of the path if `curr_pos < len - 1`. */
  function RowSpans(path: string, indices: seq<nat>, style: Style, highlight: Style): (r: Option<seq<Span>>)
    ensures r.None? <==> Pushed(path, indices, style, highlight).None?
  {
    match Pushed(path, indices, style, highlight)
    case None => None
    case Some((spans, pos)) =>
      if pos < LastIndex(|path|) then Some(spans + [Span(path[pos..], style)])
      else Some(spans)
  }

  /** The loop of `get_list` that builds one row's spans. */
  method SplitSpans(path: string, indices: seq<nat>, style: Style, highlight: Style) returns (r: Option<seq<Span>>)
    ensures r == RowSpans(path, indices, style, highlight)
  {
    var spans: seq<Span> := [];
    var pos: nat := 0;
    var i := 0;
    while i < |indices|
      invariant 0 <= i <= |indices|
      invariant Pushed(path, indices[..i], style, highlight) == Some((spans, pos))
    {
      var ind := indices[i];
      var next := indices[..i + 1];
      assert next[..|next| - 1] == indices[..i] && next[|next| - 1] == ind;
      if ind < pos || ind > |path| {
        PanicPersists(path, indices, i + 1, style, highlight);
        return None;  // `&item.path[curr_pos..*ind]` panics
      }
      var plain := Span(path[pos..ind], style);
      if ind + 1 > |path| {
        PanicPersists(path, indices, i + 1, style, highlight);
        return None;  // `&item.path[*ind..curr_pos]` panics
      }
      spans := spans + [plain, Span(path[ind..ind + 1], highlight)];
      pos := ind + 1;
      i := i + 1;
    }
    assert indices[..i] == indices;
    if pos < LastIndex(|path|) {
      spans := spans + [Span(path[pos..], style)];
    }
    return Some(spans);
  }

  /** Once a slice has panicked, the row panics whatever indices follow. */
  lemma {:induction false} PanicPersists(path: string, indices: seq<nat>, k: nat, style: Style, highlight: Style)
    requires k <= |indices|
    requires Pushed(path, indices[..k], style, highlight).None?
    ensures Pushed(path, indices, style, highlight).None?
    decreases |indices|
  {
    if k < |indices| {
      var init := indices[..|indices| - 1];
      assert init[..k] == indices[..k];
      PanicPersists(path, init, k, style, highlight);
    } else {
      assert indices[..k] == indices;
    }
  }

  predicate StrictlyIncreasing(s: seq<nat>) {
    forall j, k :: 0 <= j < k < |s| ==> s[j] < s[k]
  }

  /** A row's spans panic unless its indices are strictly increasing and
      all below the path's length. */
  lemma {:induction false} PushedPanicsIff(path: string, indices: seq<nat>, style: Style, highlight: Style)
    ensures Pushed(path, indices, style, highlight).Some? <==>
      StrictlyIncreasing(indices) && forall k :: 0 <= k < |indices| ==> indices[k] < |path|
    decreases |indices|
  {
    if indices != [] {
      var n := |indices|;
      var init := indices[..n - 1];
      PushedPanicsIff(path, init, style, highlight);
      if StrictlyIncreasing(indices) {
        assert StrictlyIncreasing(init) by {
          forall j, k | 0 <= j < k < |init| ensures init[j] < init[k] {
            assert init[j] == indices[j] && init[k] == indices[k];
          }
        }
      }
      if Pushed(path, indices, style, highlight).Some? {
        forall j, k | 0 <= j < k < n ensures indices[j] < indices[k] {
          if k < n - 1 {
            assert init[j] == indices[j] && init[k] == indices[k];
          }
        }
      }
    }
  }

  /** The characters a list of spans shows, each with its style. */
  function Cells(spans: seq<Span>): (r: seq<(char, Style)>)
    decreases |spans|
  {
    if spans == [] then []
    else Cells(spans[..|spans| - 1]) + CellsOf(spans[|spans| - 1])
  }

  function CellsOf(span: Span): (r: seq<(char, Style)>)
    ensures |r| == |span.text|
    ensures forall j :: 0 <= j < |r| ==> r[j] == (span.text[j], span.style)
  {
    seq(|span.text|, j requires 0 <= j < |span.text| => (span.text[j], span.style))
  }

  /** Every character of the path with the style it should have: highlighted
      exactly at the matched positions. */
  function Intended(path: string, indices: seq<nat>, style: Style, highlight: Style): (r: seq<(char, Style)>)
    ensures |r| == |path|
  {
    seq(|path|, j requires 0 <= j < |path| => (path[j], if j in indices then highlight else style))
  }

  lemma CellsOfTwoMore(spans: seq<Span>, a: Span, b: Span)
    ensures Cells(spans + [a, b]) == Cells(spans) + CellsOf(a) + CellsOf(b)
  {
    assert (spans + [a, b])[..|spans| + 1] == spans + [a];
    assert (spans + [a])[..|spans|] == spans;
  }

  /** Adding a matched position `ind` past everything before `pos` keeps
      the intended cells before `pos`, and extends them by the plain slice
      `[pos, ind)` and the highlighted `ind`. */
  lemma IntendedStep(path: string, init: seq<nat>, ind: nat, pos: nat, style: Style, highlight: Style)
    requires forall k :: 0 <= k < |init| ==> init[k] < pos
    requires pos <= ind < |path|
    ensures Intended(path, init + [ind], style, highlight)[..ind + 1] ==
      Intended(path, init, style, highlight)[..pos]
      + CellsOf(Span(path[pos..ind], style)) + CellsOf(Span(path[ind..ind + 1], highlight))
  {
    var indices := init + [ind];
    var want := Intended(path, indices, style, highlight);
    var before := Intended(path, init, style, highlight);
    var got := before[..pos] + CellsOf(Span(path[pos..ind], style)) + CellsOf(Span(path[ind..ind + 1], highlight));
    assert |got| == ind + 1;
    forall j | 0 <= j <= ind ensures want[j] == got[j] {
      if j < pos {
        assert j in init <==> j in indices;
      } else if j < ind {
        assert j !in init;
        assert j !in indices;
      } else {
        assert j in indices;
      }
    }
  }

  /** The spans pushed by the loop show the path up to the position reached,
      each character highlighted exactly when it is a matched position. */
  lemma {:induction false} PushedCells(path: string, indices: seq<nat>, style: Style, highlight: Style)
    requires Pushed(path, indices, style, highlight).Some?
    ensures var pos := Pushed(path, indices, style, highlight).value.1;
      Cells(Pushed(path, indices, style, highlight).value.0) == Intended(path, indices, style, highlight)[..pos]
    decreases |indices|
  {
    if indices == [] {
      assert Intended(path, indices, style, highlight)[..0] == [];
    } else {
      var n := |indices|;
      var init := indices[..n - 1];
      var ind := indices[n - 1];
      assert indices == init + [ind];
      var (spans, pos) := Pushed(path, init, style, highlight).value;
      PushedCells(path, init, style, highlight);
      var plain := Span(path[pos..ind], style);
      var hl := Span(path[ind..ind + 1], highlight);
      assert Pushed(path, indices, style, highlight) == Some((spans + [plain, hl], ind + 1));
      CellsOfTwoMore(spans, plain, hl);
      IntendedStep(path, init, ind, pos, style, highlight);
    }
  }

  /** The trailing slice completes the pushed cells when no matched
      position lies after `pos`. */
  lemma CellsOfRest(path: string, indices: seq<nat>, style: Style, highlight: Style, spans: seq<Span>, pos: nat)
    requires pos <= |path|
    requires Cells(spans) == Intended(path, indices, style, highlight)[..pos]
    requires forall k :: 0 <= k < |indices| ==> indices[k] < pos
    ensures Cells(spans + [Span(path[pos..], style)]) == Intended(path, indices, style, highlight)
  {
    var want := Intended(path, indices, style, highlight);
    var rest := Span(path[pos..], style);
    assert (spans + [rest])[..|spans|] == spans;
    var got := Cells(spans + [rest]);
    assert got == want[..pos] + CellsOf(rest);
    forall j | pos <= j < |path| ensures got[j] == want[j] {
      assert j !in indices;
    }
  }

  /** What a row in the window shows: the whole path, styled as intended,
      except that the last character is lost when the last match (or, with
      no match, the start) sits just before it. */
  lemma RowCells(path: string, indices: seq<nat>, style: Style, highlight: Style)
    requires RowSpans(path, indices, style, highlight).Some?
    ensures var pos := Pushed(path, indices, style, highlight).value.1;
      var want := Intended(path, indices, style, highlight);
      Cells(RowSpans(path, indices, style, highlight).value) ==
        if |path| > 0 && pos == |path| - 1 then want[..|path| - 1] else want
  {
    var (spans, pos) := Pushed(path, indices, style, highlight).value;
    var want := Intended(path, indices, style, highlight);
    PushedCells(path, indices, style, highlight);
    if pos < LastIndex(|path|) {
      assert RowSpans(path, indices, style, highlight).value == spans + [Span(path[pos..], style)];
      CellsOfRest(path, indices, style, highlight, spans, pos);
    } else {
      assert RowSpans(path, indices, style, highlight).value == spans;
      if pos == |path| {
        assert want[..pos] == want;
      }
    }
  }

  /** "ab" with "a" matched renders as "" and "a": the "b" is lost. */
  lemma LastCharacterLost(style: Style, highlight: Style)
    ensures RowSpans("ab", [0], style, highlight) == Some([Span([], style), Span("a", highlight)])
  {
    var path := "ab";
    var indices: seq<nat> := [0];
    assert indices[..|indices| - 1] == [];
    assert Pushed(path, [], style, highlight) == Some(([], 0));
    assert path[0..0] == [] && path[0..1] == "a";
    var spans: seq<Span> := [];
    assert spans + [Span(path[0..0], style), Span(path[0..1], highlight)] == [Span([], style), Span("a", highlight)];
    assert Pushed(path, indices, style, highlight) == Some(([Span([], style), Span("a", highlight)], 1));
  }

  /** A one-character path without a match renders no span at all. */
  lemma SingleCharacterVanishes(style: Style, highlight: Style)
    ensures RowSpans("a", [], style, highlight) == Some([])
  {
  }

  // ---------------------------------------------------------------------
  // The list

  /** The plain style of row `i`: the active colour and bold for the
      cursor's row, the foreground colour otherwise. */
  function RowStyle(i: nat, curr: Option<Usize>, colors: Config.Palette): (s: Style)
    ensures s.bold <==> i == Cursor(curr)
  {
    if i == Cursor(curr) then Style(colors.active, true) else Style(colors.fg, false)
  }

  /** Row `i` of the list, or None when its spans panic. */
  function Row(item: PathItem, i: nat, rows: U16, curr: Option<Usize>, colors: Config.Palette): Option<ListItem> {
    if InWindow(i, rows, curr) then
      var style := RowStyle(i, curr, colors);
      match RowSpans(item.path, item.indices, style, style.(fg := colors.selection))
      case None => None
      case Some(spans) => Some(Styled(spans))
    else Some(Plain(item.path))
  }

  /** `get_list`: every row rendered, or None when any row panics (the
      list collects all its rows). */
  function GetList(items: seq<PathItem>, rows: U16, curr: Option<Usize>, colors: Config.Palette): (r: Option<seq<ListItem>>)
    ensures r.None? <==> exists i :: 0 <= i < |items| && Row(items[i], i, rows, curr, colors).None?
    ensures r.Some? ==> |r.value| == |items|
    ensures r.Some? ==> forall i :: 0 <= i < |items| ==> Some(r.value[i]) == Row(items[i], i, rows, curr, colors)
  {
    if forall i :: 0 <= i < |items| ==> Row(items[i], i, rows, curr, colors).Some? then
      Some(seq(|items|, i requires 0 <= i < |items| => Row(items[i], i, rows, curr, colors).value))
    else None
  }

  /** Rows outside the window are the unmodified path; rows inside it are
      spans, bold exactly in the cursor's row, in the active colour there
      and the foreground colour elsewhere, matched positions in the
      selection colour. */
  lemma ListRows(items: seq<PathItem>, rows: U16, curr: Option<Usize>, colors: Config.Palette, i: nat)
    requires GetList(items, rows, curr, colors).Some? && i < |items|
    ensures var item := GetList(items, rows, curr, colors).value[i];
      (!InWindow(i, rows, curr) <==> item == Plain(items[i].path))
    ensures var item := GetList(items, rows, curr, colors).value[i];
      item.Styled? ==> forall s :: s in item.spans ==>
        s.style.bold == (i == Cursor(curr)) &&
        s.style.fg in {if i == Cursor(curr) then colors.active else colors.fg, colors.selection}
  {
    var item := GetList(items, rows, curr, colors).value[i];
    if item.Styled? {
      var style := RowStyle(i, curr, colors);
      var highlight := style.(fg := colors.selection);
      var (spans, pos) := Pushed(items[i].path, items[i].indices, style, highlight).value;
      PushedStyles(items[i].path, items[i].indices, style, highlight);
    }
  }

  /** Every pushed span has the plain or the highlight style. */
  lemma {:induction false} PushedStyles(path: string, indices: seq<nat>, style: Style, highlight: Style)
    requires Pushed(path, indices, style, highlight).Some?
    ensures forall s :: s in Pushed(path, indices, style, highlight).value.0 ==> s.style in {style, highlight}
    decreases |indices|
  {
    if indices != [] {
      PushedStyles(path, indices[..|indices| - 1], style, highlight);
    }
  }

  // ---------------------------------------------------------------------
  // The counter

  /** `get_total_item_no`: `"{curr_len}/{total_len}"`. */
  function TotalItemNo(total: Usize, curr: Usize): string {
    NatToString(curr) + "/" + NatToString(total)
  }

  /** The counter reads back as the two numbers: split at its only '/',
      each side parses to the number it was made from. */
  lemma TotalItemNoReadsBack(total: Usize, curr: Usize)
    ensures SplitOnce(TotalItemNo(total, curr), '/') == Some((NatToString(curr), NatToString(total)))
    ensures ParseUnsigned(NatToString(curr), USIZE_LIMIT) == Some(curr)
    ensures ParseUnsigned(NatToString(total), USIZE_LIMIT) == Some(total)
  {
    var c := NatToString(curr);
    assert '/' !in c by {
      forall k | 0 <= k < |c| ensures c[k] != '/' {
        assert IsDigit(c[k]);
      }
    }
    SplitOnceAtFirst(c, NatToString(total), '/');
    ParseOfNatToString(curr, USIZE_LIMIT);
    ParseOfNatToString(total, USIZE_LIMIT);
  }
}
