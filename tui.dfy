/** The interactive selection list of src/tui.rs.  An `App` holds the
    catalogue of paths, the text typed so far, the filtered list and the
    selected row; `run_app` draws it, reads a key and dispatches on it until
    a key ends the loop.  The fuzzy matcher is a parameter of the app, the
    terminal is left out: events are an input sequence, and drawing is
    modelled only for what it does to the app's state (it marks the entries
    whose directory names a running session and moves them first). */
module Tui {
  import opened RustText

  /** An entry of the filtered list, `(bool, usize, Vec<usize>)`: whether
      its directory names a running session, its position in the catalogue
      and the character positions the matcher highlighted. */
  datatype Entry = Entry(active: bool, index: nat, highlight: seq<nat>)

  /** `fuzzy_indices(path, pattern)`: the matched positions, or None.  The
      score is dropped, as the code drops it. */
  type Matcher = (string, string) -> Option<seq<nat>>

  /** Every entry points into a catalogue of `n` paths. */
  predicate ValidFilter(f: seq<Entry>, n: nat) {
    forall e :: e in f ==> e.index < n
  }

  // ---------------------------------------------------------------------
  // Moving the selection: App::next and App::prev

  /** `n as i16`: the low 16 bits of `n`, read in two's complement. */
  function AsI16(n: int): (r: int)
    ensures -0x8000 <= r < 0x8000
    ensures (n - r) % 0x1_0000 == 0
  {
    var m := n % 0x1_0000;
    if m >= 0x8000 then m - 0x1_0000 else m
  }

  /** `v as usize` for an `i16`: sign extension to 64 bits. */
  function I16AsUsize(v: int): (r: Usize)
    requires -0x8000 <= v < 0x8000
    ensures v >= 0 ==> r == v
    ensures v < 0 ==> r - v == USIZE_LIMIT
  {
    if v < 0 then USIZE_LIMIT + v else v
  }

  /** The bound `next` compares the selection with, `(len as i16 - 1) as
      usize`, the `i16` subtraction wrapping as in a release build. */
  function NextBound(len: nat): (b: Usize)
    ensures var m := len % 0x1_0000;
      b == if m == 0 then USIZE_LIMIT - 1
           else if m <= 0x8000 then m - 1
           else USIZE_LIMIT + m - 0x1_0001
  {
    I16AsUsize(AsI16(AsI16(len) - 1))
  }

  /** The selection after `next` on a list of `len` entries. */
  function NextSelection(len: nat, sel: Option<Usize>): (r: Option<Usize>)
    ensures r.Some? <==> sel.Some?
    ensures sel.Some? ==> r.value == sel.value || r.value == sel.value + 1
  {
    match sel
    case None => None
    case Some(pos) => if pos < NextBound(len) then Some(pos + 1) else sel
  }

  /** The selection after `prev`. */
  function PrevSelection(sel: Option<Usize>): (r: Option<Usize>)
    ensures r.Some? <==> sel.Some?
    ensures sel.Some? ==> r.value <= sel.value && sel.value <= r.value + 1
    ensures sel.Some? ==> (r.value == sel.value <==> sel.value == 0)
  {
    match sel
    case None => None
    case Some(pos) => if pos > 0 then Some(pos - 1) else sel
  }

  /** On a list of 1 to 32768 entries `next` moves down one row and stops
      at the last one. */
  lemma NextClamps(len: nat, pos: Usize)
    requires 0 < len <= 0x8000
    ensures NextSelection(len, Some(pos)) == Some(if pos + 1 < len then pos + 1 else pos)
  {
  }

  /** On such a list both moves keep a selection that is on the list on
      the list. */
  lemma MovesStayOnList(len: nat, pos: Usize)
    requires 0 < len <= 0x8000 && pos < len
    ensures NextSelection(len, Some(pos)).value < len
    ensures PrevSelection(Some(pos)).value < len
  {
    NextClamps(len, pos);
  }

  /** On an empty list `(0i16 - 1) as usize` is `usize::MAX`, so `next`
      moves the selection below the end of the list. */
  lemma NextOnEmptyList(pos: Usize)
    requires pos < USIZE_LIMIT - 1
    ensures NextSelection(0, Some(pos)) == Some(pos + 1)
  {
  }

  /** From 32769 to 65535 entries the length is negative as an `i16`, and
      `next` moves past the last entry. */
  lemma NextLeavesLongList(len: nat)
    requires 0x8000 < len < 0x1_0000
    ensures NextSelection(len, Some(len - 1)) == Some(len)
  {
  }

  // ---------------------------------------------------------------------
  // Filtering: App::update

  /** The entries of the paths from `from` on that the matcher accepts for
      `pattern`, in catalogue order. */
  function Matches(paths: seq<string>, pattern: string, matcher: Matcher, from: nat): (r: seq<Entry>)
    requires from <= |paths|
    ensures forall k :: 0 <= k < |r| ==> from <= r[k].index < |paths|
    decreases |paths| - from
  {
    if from == |paths| then []
    else
      var rest := Matches(paths, pattern, matcher, from + 1);
      match matcher(paths[from], pattern)
      case None => rest
      case Some(indices) => [Entry(false, from, indices)] + rest
  }

  /** `filter` after `update`. */
  function Filtered(paths: seq<string>, pattern: string, matcher: Matcher): (r: seq<Entry>)
    ensures ValidFilter(r, |paths|)
  {
    Matches(paths, pattern, matcher, 0)
  }

  lemma {:induction false} MatchesAccepted(paths: seq<string>, pattern: string, matcher: Matcher, from: nat)
    requires from <= |paths|
    ensures forall k :: 0 <= k < |Matches(paths, pattern, matcher, from)| ==>
      var e := Matches(paths, pattern, matcher, from)[k];
      !e.active && matcher(paths[e.index], pattern) == Some(e.highlight)
    decreases |paths| - from
  {
    if from < |paths| {
      MatchesAccepted(paths, pattern, matcher, from + 1);
      var rest := Matches(paths, pattern, matcher, from + 1);
      var m := matcher(paths[from], pattern);
      if m.Some? {
        var r := Matches(paths, pattern, matcher, from);
        assert r == [Entry(false, from, m.value)] + rest;
        assert forall k :: 1 <= k < |r| ==> r[k] == rest[k - 1];
      }
    }
  }

  lemma {:induction false} MatchesInOrder(paths: seq<string>, pattern: string, matcher: Matcher, from: nat)
    requires from <= |paths|
    ensures forall k, l :: 0 <= k < l < |Matches(paths, pattern, matcher, from)| ==>
      Matches(paths, pattern, matcher, from)[k].index < Matches(paths, pattern, matcher, from)[l].index
    decreases |paths| - from
  {
    if from < |paths| {
      MatchesInOrder(paths, pattern, matcher, from + 1);
      var rest := Matches(paths, pattern, matcher, from + 1);
      var m := matcher(paths[from], pattern);
      if m.Some? {
        var r := Matches(paths, pattern, matcher, from);
        assert r == [Entry(false, from, m.value)] + rest;
        assert forall k :: 1 <= k < |r| ==> r[k] == rest[k - 1];
      }
    }
  }

  lemma {:induction false} MatchesComplete(paths: seq<string>, pattern: string, matcher: Matcher, from: nat, j: nat)
    requires from <= j < |paths| && matcher(paths[j], pattern).Some?
    ensures exists k :: 0 <= k < |Matches(paths, pattern, matcher, from)| && Matches(paths, pattern, matcher, from)[k].index == j
    decreases |paths| - from
  {
    var r := Matches(paths, pattern, matcher, from);
    var rest := Matches(paths, pattern, matcher, from + 1);
    if matcher(paths[from], pattern).Some? {
      assert r == [Entry(false, from, matcher(paths[from], pattern).value)] + rest;
      if j == from {
        assert r[0].index == j;
      } else {
        MatchesComplete(paths, pattern, matcher, from + 1, j);
        var k :| 0 <= k < |rest| && rest[k].index == j;
        assert r[k + 1].index == j;
      }
    } else {
      MatchesComplete(paths, pattern, matcher, from + 1, j);
    }
  }

  /** A path is on the filtered list exactly when the matcher accepts it,
      and then once, with the matcher's positions; the list is in catalogue
      order and nothing on it is marked active. */
  lemma FilteredSpec(paths: seq<string>, pattern: string, matcher: Matcher)
    ensures forall j :: 0 <= j < |paths| ==>
      ((exists k :: 0 <= k < |Filtered(paths, pattern, matcher)| && Filtered(paths, pattern, matcher)[k].index == j)
       <==> matcher(paths[j], pattern).Some?)
    ensures forall k :: 0 <= k < |Filtered(paths, pattern, matcher)| ==>
      var e := Filtered(paths, pattern, matcher)[k];
      !e.active && matcher(paths[e.index], pattern) == Some(e.highlight)
    ensures forall k, l :: 0 <= k < l < |Filtered(paths, pattern, matcher)| ==>
      Filtered(paths, pattern, matcher)[k].index < Filtered(paths, pattern, matcher)[l].index
  {
    assert Filtered(paths, pattern, matcher) == Matches(paths, pattern, matcher, 0);
    MatchesAccepted(paths, pattern, matcher, 0);
    MatchesInOrder(paths, pattern, matcher, 0);
    forall j | 0 <= j < |paths| && matcher(paths[j], pattern).Some?
      ensures exists k :: 0 <= k < |Filtered(paths, pattern, matcher)| && Filtered(paths, pattern, matcher)[k].index == j
    {
      MatchesComplete(paths, pattern, matcher, 0, j);
    }
  }

  // ---------------------------------------------------------------------
  // Drawing: the part of `ui` that changes the app

  /** An entry marked by whether its directory's name is a running
      session; an entry whose path has no file name is left as it is (the
      code panics on it, see `Named`). */
  function Mark(paths: seq<string>, active: seq<string>, e: Entry): Entry
    requires e.index < |paths|
  {
    match FileName(paths[e.index])
    case None => e
    case Some(name) => e.(active := name in active)
  }

  function Marked(paths: seq<string>, active: seq<string>, f: seq<Entry>): (r: seq<Entry>)
    requires ValidFilter(f, |paths|)
    ensures |r| == |f| && ValidFilter(r, |paths|)
    ensures forall k :: 0 <= k < |f| ==> r[k].index == f[k].index && r[k].highlight == f[k].highlight
  {
    seq(|f|, k requires 0 <= k < |f| => Mark(paths, active, f[k]))
  }

  /** Every entry's path has a file name, so no `unwrap` fails. */
  predicate Named(paths: seq<string>, f: seq<Entry>)
    requires ValidFilter(f, |paths|)
  {
    forall k :: 0 <= k < |f| ==> FileName(paths[f[k].index]).Some?
  }

  /** The entries of `f` whose mark is `b`, in order. */
  function Group(f: seq<Entry>, b: bool): (r: seq<Entry>)
    ensures |r| <= |f|
  {
    if f == [] then [] else (if f[0].active == b then [f[0]] else []) + Group(f[1..], b)
  }

  /** A group holds entries of the list, each with the group's mark. */
  lemma {:induction false} GroupMembers(f: seq<Entry>, b: bool)
    ensures forall e :: e in Group(f, b) ==> e in f && e.active == b
    decreases |f|
  {
    if f != [] {
      GroupMembers(f[1..], b);
      assert forall e :: e in f[1..] ==> e in f;
    }
  }

  predicate ActiveBeforeInactive(s: seq<Entry>) {
    forall i, j :: 0 <= i < j < |s| && s[j].active ==> s[i].active
  }

  /** `sort_by_key(|&(contains, _, _)| !contains)`: a stable sort on the
      mark, active entries first. */
  function ActiveFirst(f: seq<Entry>): (r: seq<Entry>)
    ensures ActiveBeforeInactive(r)
    ensures forall e :: e in r ==> e in f
  {
    GroupMembers(f, true);
    GroupMembers(f, false);
    Group(f, true) + Group(f, false)
  }

  /** The entries after drawing, or the panic of a path without a file
      name. */
  function Redraw(paths: seq<string>, active: seq<string>, f: seq<Entry>): (r: Result<seq<Entry>, Panic>)
    requires ValidFilter(f, |paths|)
    ensures r.Err? <==> !Named(paths, f)
    ensures r.Err? ==> r.error == NoFileName
    ensures r.Ok? ==> ValidFilter(r.value, |paths|)
  {
    if Named(paths, f) then Ok(ActiveFirst(Marked(paths, active, f))) else Err(NoFileName)
  }

  /** What drawing shows: the marked list sorted stably with the active
      entries first, a permutation of it that keeps each group's order. */
  lemma RedrawSortsMarks(paths: seq<string>, active: seq<string>, f: seq<Entry>)
    requires ValidFilter(f, |paths|)
    ensures Redraw(paths, active, f).Ok? ==>
      var d, m := Redraw(paths, active, f).value, Marked(paths, active, f);
      && d == ActiveFirst(m)
      && ActiveBeforeInactive(d)
      && multiset(d) == multiset(m)
      && Group(d, true) == Group(m, true)
      && Group(d, false) == Group(m, false)
  {
    ActiveFirstIsStablePartition(Marked(paths, active, f));
  }

  lemma {:induction false} GroupAppend(a: seq<Entry>, b: seq<Entry>, key: bool)
    ensures Group(a + b, key) == Group(a, key) + Group(b, key)
    decreases |a|
  {
    if a == [] {
      assert a + b == b;
    } else {
      GroupAppend(a[1..], b, key);
      var head := if a[0].active == key then [a[0]] else [];
      assert (a + b)[0] == a[0] && (a + b)[1..] == a[1..] + b;
      assert Group(a + b, key) == head + Group(a[1..] + b, key);
      assert Group(a, key) == head + Group(a[1..], key);
    }
  }

  lemma {:induction false} GroupOfUniform(s: seq<Entry>, b: bool)
    requires forall i :: 0 <= i < |s| ==> s[i].active == b
    ensures Group(s, b) == s && Group(s, !b) == []
    decreases |s|
  {
    if s != [] {
      GroupOfUniform(s[1..], b);
      assert s == [s[0]] + s[1..];
    }
  }

  /** The two groups together hold every entry once. */
  lemma {:induction false} GroupsPartition(f: seq<Entry>)
    ensures multiset(Group(f, true)) + multiset(Group(f, false)) == multiset(f)
    decreases |f|
  {
    if f != [] {
      GroupsPartition(f[1..]);
      var t, u := Group(f[1..], true), Group(f[1..], false);
      assert f == [f[0]] + f[1..];
      assert multiset(f) == multiset([f[0]]) + multiset(f[1..]);
      if f[0].active {
        assert Group(f, true) == [f[0]] + t && Group(f, false) == u;
        assert multiset([f[0]] + t) == multiset([f[0]]) + multiset(t);
      } else {
        assert Group(f, true) == t && Group(f, false) == [f[0]] + u;
        assert multiset([f[0]] + u) == multiset([f[0]]) + multiset(u);
      }
    }
  }

  /** Moving active entries first is a permutation, and it is stable: each
      group keeps its order. */
  lemma ActiveFirstIsStablePartition(f: seq<Entry>)
    ensures multiset(ActiveFirst(f)) == multiset(f)
    ensures Group(ActiveFirst(f), true) == Group(f, true)
    ensures Group(ActiveFirst(f), false) == Group(f, false)
  {
    GroupsPartition(f);
    GroupAppend(Group(f, true), Group(f, false), true);
    GroupAppend(Group(f, true), Group(f, false), false);
    GroupMembers(f, true);
    GroupMembers(f, false);
    GroupOfUniform(Group(f, true), true);
    GroupOfUniform(Group(f, false), false);
  }

  /** A sequence with the active entries first is its active group
      followed by its inactive group. */
  lemma {:induction false} SortedSplits(s: seq<Entry>)
    requires ActiveBeforeInactive(s)
    ensures s == Group(s, true) + Group(s, false)
    decreases |s|
  {
    if s != [] {
      if s[0].active {
        assert ActiveBeforeInactive(s[1..]) by {
          forall i, j | 0 <= i < j < |s[1..]| && s[1..][j].active ensures s[1..][i].active {
            assert s[i + 1].active;
          }
        }
        SortedSplits(s[1..]);
      } else {
        assert forall i :: 0 <= i < |s| ==> !s[i].active;
        GroupOfUniform(s, false);
      }
    }
  }

  /** Any stable sort on the mark gives `ActiveFirst`: a sequence with the
      active entries first and the same groups in the same order is it. */
  lemma StableSortIsActiveFirst(f: seq<Entry>, s: seq<Entry>)
    requires ActiveBeforeInactive(s)
    requires Group(s, true) == Group(f, true) && Group(s, false) == Group(f, false)
    ensures s == ActiveFirst(f)
  {
    SortedSplits(s);
  }

  // ---------------------------------------------------------------------
  // Highlighting a row: color_fzf

  /** The two looks of a character: white, or red and bold. */
  datatype Look = White | RedBold

  /** A span of the row; `color_fzf` makes one per character. */
  datatype CharSpan = CharSpan(text: string, look: Look)

  /** `color_fzf(input, indices)`: each character of the path in its own
      span, red and bold when its position was matched. */
  function ColorFzf(input: string, indices: seq<nat>): (r: seq<CharSpan>)
    ensures |r| == |input|
  {
    seq(|input|, i requires 0 <= i < |input| => CharSpan([input[i]], if i in indices then RedBold else White))
  }

  /** The text a sequence of spans shows. */
  function Text(spans: seq<CharSpan>): string
    decreases |spans|
  {
    if spans == [] then [] else Text(spans[..|spans| - 1]) + spans[|spans| - 1].text
  }

  lemma {:induction false} ColorFzfPrefix(input: string, indices: seq<nat>, k: nat)
    requires k <= |input|
    ensures Text(ColorFzf(input, indices)[..k]) == input[..k]
    decreases k
  {
    var r := ColorFzf(input, indices);
    if k > 0 {
      ColorFzfPrefix(input, indices, k - 1);
      assert r[..k][..k - 1] == r[..k - 1];
      assert input[..k] == input[..k - 1] + [input[k - 1]];
    }
  }

  /** The spans show exactly the path, one character each, and a
      character is highlighted exactly when its position is matched. */
  lemma ColorFzfSpans(input: string, indices: seq<nat>)
    ensures Text(ColorFzf(input, indices)) == input
    ensures forall i :: 0 <= i < |input| ==>
      |ColorFzf(input, indices)[i].text| == 1 &&
      (ColorFzf(input, indices)[i].look == RedBold <==> i in indices)
  {
    var r := ColorFzf(input, indices);
    ColorFzfPrefix(input, indices, |input|);
    assert r[..|input|] == r;
    assert input[..|input|] == input;
  }

  // ---------------------------------------------------------------------
  // Key dispatch and the event loop

  datatype KeyCode = Char(c: char) | Backspace | Enter | Esc | OtherKey

  /** The modifier set of a key: exactly none, exactly Control, or any
      other combination. */
  datatype Modifiers = NoModifier | ControlOnly | OtherModifiers

  /** What `event::read` returns: a key event (of any kind), another event
      (mouse, resize, focus, paste), or an error. */
  datatype Event = Key(code: KeyCode, modifiers: Modifiers) | NotKey | ReadFailed

  datatype Panic =
    | NoFileName         // `file_name().unwrap()` in `ui`
    | UnwrapNone         // `selected().unwrap()` on Enter
    | IndexOutOfBounds   // `filter[selected]` on Enter

  /** What a key does to the loop: go on, return, start the tmux session
      of a path, or panic. */
  datatype Outcome = Continue | Quit | Launch(path: string) | Panicked(reason: Panic)

  /** The state of an `App` the keys act on. */
  datatype View = View(userInput: string, filter: seq<Entry>, selected: Option<Usize>)

  /** The `match (code, modifiers)` of `run_app`. */
  function KeyStep(paths: seq<string>, matcher: Matcher, v: View, code: KeyCode, mods: Modifiers): (r: (View, Outcome))
    requires ValidFilter(v.filter, |paths|)
    ensures ValidFilter(r.0.filter, |paths|)
    ensures v.selected.Some? ==> r.0.selected.Some?
    ensures r.0.filter != v.filter ==> r.0.filter == Filtered(paths, r.0.userInput, matcher)
    ensures r.1 != Continue ==> r.0 == v
    ensures r.1 == Quit <==> (code, mods) == (Esc, NoModifier) || (code, mods) == (Char('c'), ControlOnly)
    ensures r.1 == Panicked(IndexOutOfBounds) <==>
      (code, mods) == (Enter, NoModifier) && v.filter != [] && v.selected.Some? && v.selected.value >= |v.filter|
    ensures r.1.Launch? <==>
      (code, mods) == (Enter, NoModifier) && v.selected.Some? && v.selected.value < |v.filter|
    ensures r.1.Launch? ==> r.1.path == paths[v.filter[v.selected.value].index]
    ensures (code, mods) == (Char('j'), ControlOnly) ==>
      r == (v.(selected := NextSelection(|v.filter|, v.selected)), Continue)
    ensures (code, mods) == (Char('k'), ControlOnly) ==>
      r == (v.(selected := PrevSelection(v.selected)), Continue)
  {
    match (code, mods)
    case (Char(c), NoModifier) =>
      var input := v.userInput + [c];
      (View(input, Filtered(paths, input, matcher), Some(0)), Continue)
    case (Backspace, NoModifier) =>
      var input := if v.userInput == [] then [] else v.userInput[..|v.userInput| - 1];
      (View(input, Filtered(paths, input, matcher), v.selected), Continue)
    case (Enter, NoModifier) =>
      if v.filter == [] then (v, Continue)
      else if v.selected.None? then (v, Panicked(UnwrapNone))
      else if v.selected.value >= |v.filter| then (v, Panicked(IndexOutOfBounds))
      else (v, Launch(paths[v.filter[v.selected.value].index]))
    case (Esc, NoModifier) => (v, Quit)
    case (Char('c'), ControlOnly) => (v, Quit)
    case (Char('j'), ControlOnly) => (v.(selected := NextSelection(|v.filter|, v.selected)), Continue)
    case (Char('k'), ControlOnly) => (v.(selected := PrevSelection(v.selected)), Continue)
    case _ => (v, Continue)
  }

  /** Typing a character appends it, selects the first row and filters
      again; Backspace drops the last character, if any, and filters again
      without moving the selection. */
  lemma TypingAndErasing(paths: seq<string>, matcher: Matcher, v: View, c: char)
    requires ValidFilter(v.filter, |paths|)
    ensures var (w, o) := KeyStep(paths, matcher, v, Char(c), NoModifier);
      o == Continue && w.userInput == v.userInput + [c] && w.selected == Some(0) &&
      w.filter == Filtered(paths, w.userInput, matcher)
    ensures var (w, o) := KeyStep(paths, matcher, v, Backspace, NoModifier);
      o == Continue && w.selected == v.selected && w.filter == Filtered(paths, w.userInput, matcher) &&
      (v.userInput == [] ==> w.userInput == []) &&
      (v.userInput != [] ==> w.userInput + [v.userInput[|v.userInput| - 1]] == v.userInput)
  {
  }

  /** Enter on an empty list, and every key the match does not name,
      change nothing. */
  lemma InertKeys(paths: seq<string>, matcher: Matcher, v: View, code: KeyCode, mods: Modifiers)
    requires ValidFilter(v.filter, |paths|)
    requires || ((code, mods) == (Enter, NoModifier) && v.filter == [])
             || mods == OtherModifiers
             || code == OtherKey
             || (mods == ControlOnly && code != Char('c') && code != Char('j') && code != Char('k'))
    ensures KeyStep(paths, matcher, v, code, mods) == (v, Continue)
  {
  }

  /** How a run ends: blocked waiting for the next event (the events ran
      out), stopped by a key or a panic, or on a read error. */
  datatype RunEnd = Waiting(view: View) | Stopped(outcome: Outcome) | ReadError

  /** The loop of `run_app` from view `v`: draw, read an event, dispatch. */
  function RunFrom(paths: seq<string>, active: seq<string>, matcher: Matcher, v: View, events: seq<Event>): (r: RunEnd)
    requires ValidFilter(v.filter, |paths|)
    ensures r.Stopped? ==> r.outcome != Continue
    decreases |events|
  {
    match Redraw(paths, active, v.filter)
    case Err(p) => Stopped(Panicked(p))
    case Ok(f) =>
      var drawn := v.(filter := f);
      if events == [] then Waiting(drawn)
      else match events[0]
        case ReadFailed => ReadError
        case NotKey => RunFrom(paths, active, matcher, drawn, events[1..])
        case Key(code, mods) =>
          var (next, o) := KeyStep(paths, matcher, drawn, code, mods);
          if o == Continue then RunFrom(paths, active, matcher, next, events[1..]) else Stopped(o)
  }

  /** The view `run_app` starts from: no input, every path the empty
      pattern accepts, the first row selected. */
  function Start(paths: seq<string>, matcher: Matcher): (v: View)
    ensures ValidFilter(v.filter, |paths|) && v.selected == Some(0)
  {
    View([], Filtered(paths, [], matcher), Some(0))
  }

  /** The selection is never None during a run, so the `unwrap` of Enter
      never panics. */
  lemma {:induction false} RunNeverUnwrapsNone(paths: seq<string>, active: seq<string>, matcher: Matcher, v: View, events: seq<Event>)
    requires ValidFilter(v.filter, |paths|) && v.selected.Some?
    ensures RunFrom(paths, active, matcher, v, events) != Stopped(Panicked(UnwrapNone))
    decreases |events|
  {
    match Redraw(paths, active, v.filter)
    case Err(_) =>
    case Ok(f) =>
      var drawn := v.(filter := f);
      if events != [] {
        match events[0]
        case ReadFailed =>
        case NotKey => RunNeverUnwrapsNone(paths, active, matcher, drawn, events[1..]);
        case Key(code, mods) =>
          var (next, o) := KeyStep(paths, matcher, drawn, code, mods);
          if o == Continue {
            RunNeverUnwrapsNone(paths, active, matcher, next, events[1..]);
          }
      }
  }

  /** The catalogue "a", and a matcher that accepts every path for the
      empty pattern and none for another. */
  function OnlyEmptyPattern(path: string, pattern: string): Option<seq<nat>> {
    if pattern == [] then Some([]) else None
  }

  lemma FileNameOfA()
    ensures FileName("a") == Some("a")
  {
    assert Find("a", "/").None? by {
      forall j | 0 <= j ensures !Occurs("a", "/", j) {
        if j + 1 <= |"a"| {
          assert "a"[j..j + 1][0] == "a"[j];
        }
      }
    }
    assert Split("a", "/") == ["a"];
    assert Components(["a"]) == ["a"] + Components([]);
  }

  /** The lists of the example: "a" for the empty pattern, nothing for
      "z". */
  lemma ExampleLists()
    ensures Filtered(["a"], [], OnlyEmptyPattern) == [Entry(false, 0, [])]
    ensures Filtered(["a"], "z", OnlyEmptyPattern) == []
  {
    assert Matches(["a"], [], OnlyEmptyPattern, 1) == [];
    assert Matches(["a"], "z", OnlyEmptyPattern, 1) == [];
  }

  /** Drawing changes neither list of the example. */
  lemma ExampleRedraws()
    ensures Redraw(["a"], [], [Entry(false, 0, [])]) == Ok([Entry(false, 0, [])])
    ensures Redraw(["a"], [], []) == Ok([])
  {
    var paths := ["a"];
    var one := [Entry(false, 0, [])];
    FileNameOfA();
    assert Named(paths, one);
    assert Mark(paths, [], one[0]) == one[0];
    assert Marked(paths, [], one) == one by {
      assert Marked(paths, [], one)[0] == one[0];
    }
    assert Group(one, true) == [] && Group(one, false) == one;
    assert ActiveFirst(one) == one;
  }

  /** The keys of the example, one at a time. */
  lemma ExampleTypeZ()
    ensures KeyStep(["a"], OnlyEmptyPattern, View([], [Entry(false, 0, [])], Some(0)), Char('z'), NoModifier)
      == (View("z", [], Some(0)), Continue)
  {
    ExampleLists();
    var input: string := [];
    assert input + ['z'] == "z";
  }

  lemma ExampleNext()
    ensures KeyStep(["a"], OnlyEmptyPattern, View("z", [], Some(0)), Char('j'), ControlOnly)
      == (View("z", [], Some(1)), Continue)
  {
  }

  lemma ExampleErase()
    ensures KeyStep(["a"], OnlyEmptyPattern, View("z", [], Some(1)), Backspace, NoModifier)
      == (View([], [Entry(false, 0, [])], Some(1)), Continue)
  {
    ExampleLists();
    assert "z"[..|"z"| - 1] == [];
  }

  lemma ExampleEnter()
    ensures KeyStep(["a"], OnlyEmptyPattern, View([], [Entry(false, 0, [])], Some(1)), Enter, NoModifier)
      == (View([], [Entry(false, 0, [])], Some(1)), Panicked(IndexOutOfBounds))
  {
  }

  /** One turn of the loop on a view that drawing leaves as it is. */
  lemma RunKey(paths: seq<string>, active: seq<string>, matcher: Matcher, v: View,
               code: KeyCode, mods: Modifiers, rest: seq<Event>, next: View, o: Outcome)
    requires ValidFilter(v.filter, |paths|) && Redraw(paths, active, v.filter) == Ok(v.filter)
    requires KeyStep(paths, matcher, v, code, mods) == (next, o)
    ensures RunFrom(paths, active, matcher, v, [Key(code, mods)] + rest) ==
      if o == Continue then RunFrom(paths, active, matcher, next, rest) else Stopped(o)
  {
    assert v.(filter := v.filter) == v;
    assert ([Key(code, mods)] + rest)[1..] == rest;
  }

  lemma ExampleStart()
    ensures Start(["a"], OnlyEmptyPattern) == View([], [Entry(false, 0, [])], Some(0))
  {
    ExampleLists();
  }

  /** The turns of the example's loop, whatever events follow each. */
  lemma TurnTypeZ(rest: seq<Event>)
    ensures RunFrom(["a"], [], OnlyEmptyPattern, View([], [Entry(false, 0, [])], Some(0)), [Key(Char('z'), NoModifier)] + rest)
      == RunFrom(["a"], [], OnlyEmptyPattern, View("z", [], Some(0)), rest)
  {
    ExampleRedraws();
    ExampleTypeZ();
    RunKey(["a"], [], OnlyEmptyPattern, View([], [Entry(false, 0, [])], Some(0)), Char('z'), NoModifier, rest,
           View("z", [], Some(0)), Continue);
  }

  lemma TurnNext(rest: seq<Event>)
    ensures RunFrom(["a"], [], OnlyEmptyPattern, View("z", [], Some(0)), [Key(Char('j'), ControlOnly)] + rest)
      == RunFrom(["a"], [], OnlyEmptyPattern, View("z", [], Some(1)), rest)
  {
    ExampleRedraws();
    ExampleNext();
    RunKey(["a"], [], OnlyEmptyPattern, View("z", [], Some(0)), Char('j'), ControlOnly, rest,
           View("z", [], Some(1)), Continue);
  }

  lemma TurnErase(rest: seq<Event>)
    ensures RunFrom(["a"], [], OnlyEmptyPattern, View("z", [], Some(1)), [Key(Backspace, NoModifier)] + rest)
      == RunFrom(["a"], [], OnlyEmptyPattern, View([], [Entry(false, 0, [])], Some(1)), rest)
  {
    ExampleRedraws();
    ExampleErase();
    RunKey(["a"], [], OnlyEmptyPattern, View("z", [], Some(1)), Backspace, NoModifier, rest,
           View([], [Entry(false, 0, [])], Some(1)), Continue);
  }

  lemma TurnEnter(rest: seq<Event>)
    ensures RunFrom(["a"], [], OnlyEmptyPattern, View([], [Entry(false, 0, [])], Some(1)), [Key(Enter, NoModifier)] + rest)
      == Stopped(Panicked(IndexOutOfBounds))
  {
    ExampleRedraws();
    ExampleEnter();
    RunKey(["a"], [], OnlyEmptyPattern, View([], [Entry(false, 0, [])], Some(1)), Enter, NoModifier, rest,
           View([], [Entry(false, 0, [])], Some(1)), Panicked(IndexOutOfBounds));
  }

  /** Typing a character nothing matches empties the list; Ctrl-j then
      moves the selection to row 1, Backspace brings back a one-row list,
      and Enter indexes past its end. */
  lemma NextOnEmptyListThenEnterPanics(rest: seq<Event>)
    ensures RunFrom(["a"], [], OnlyEmptyPattern, Start(["a"], OnlyEmptyPattern),
      [Key(Char('z'), NoModifier)] + ([Key(Char('j'), ControlOnly)] + ([Key(Backspace, NoModifier)] + ([Key(Enter, NoModifier)] + rest))))
      == Stopped(Panicked(IndexOutOfBounds))
  {
    ExampleStart();
    TurnTypeZ([Key(Char('j'), ControlOnly)] + ([Key(Backspace, NoModifier)] + ([Key(Enter, NoModifier)] + rest)));
    TurnNext([Key(Backspace, NoModifier)] + ([Key(Enter, NoModifier)] + rest));
    TurnErase([Key(Enter, NoModifier)] + rest);
    TurnEnter(rest);
  }

  // ---------------------------------------------------------------------
  // The app object

  /** The loop of `ui` over the list: each entry is marked by whether its
      directory's name is a running session, until a path without a file
      name panics. */
  method MarkEntries(paths: seq<string>, active: seq<string>, f: seq<Entry>) returns (marked: seq<Entry>, ok: bool)
    requires ValidFilter(f, |paths|)
    ensures ok <==> Named(paths, f)
    ensures ok ==> marked == Marked(paths, active, f)
  {
    marked := f;
    ok := true;
    for i := 0 to |f|
      invariant |marked| == |f|
      invariant forall k :: 0 <= k < i ==> FileName(paths[f[k].index]).Some?
      invariant forall k :: 0 <= k < i ==> marked[k] == Mark(paths, active, f[k])
      invariant forall k :: i <= k < |f| ==> marked[k] == f[k]
    {
      var e := marked[i];
      assert e == f[i] && e in f;
      match FileName(paths[e.index])
      case None =>
        return marked, false;
      case Some(name) =>
        marked := marked[i := e.(active := name in active)];
    }
  }

  class App {
    var userInput: string
    const paths: seq<string>
    var filter: seq<Entry>
    /** The names of the running sessions, `tmux::sessions()` at start. */
    var active: seq<string>
    /** `list_state.selected()`; the scroll offset of the list state is
        the terminal library's and is not modelled. */
    var selected: Option<Usize>
    const matcher: Matcher

    /** `App::new(paths)`, with the session names as an input. */
    constructor (paths: seq<string>, active: seq<string>, matcher: Matcher)
      ensures userInput == [] && filter == [] && selected == None
      ensures this.paths == paths && this.active == active && this.matcher == matcher
    {
      userInput := [];
      this.paths := paths;
      filter := [];
      this.active := active;
      selected := None;
      this.matcher := matcher;
    }

    function Snapshot(): View
      reads this
    {
      View(userInput, filter, selected)
    }

    /** `next`. */
    method Next()
      modifies this
      ensures selected == NextSelection(|filter|, old(selected))
      ensures userInput == old(userInput) && filter == old(filter) && active == old(active)
    {
      var len := AsI16(|filter|);
      if selected.Some? {
        var pos := selected.value;
        if pos < I16AsUsize(AsI16(len - 1)) {
          selected := Some(pos + 1);
        }
      }
    }

    /** `prev`. */
    method Prev()
      modifies this
      ensures selected == PrevSelection(old(selected))
      ensures userInput == old(userInput) && filter == old(filter) && active == old(active)
    {
      if selected.Some? {
        var pos := selected.value;
        if pos > 0 {
          selected := Some(pos - 1);
        }
      }
    }

    /** `update`: the matcher is run over the catalogue in order and the
        accepted paths become the new list. */
    method Update()
      modifies this
      ensures filter == Filtered(paths, userInput, matcher)
      ensures userInput == old(userInput) && selected == old(selected) && active == old(active)
    {
      var matched: seq<Entry> := [];
      for i := 0 to |paths|
        invariant matched + Matches(paths, userInput, matcher, i) == Filtered(paths, userInput, matcher)
      {
        var rest := Matches(paths, userInput, matcher, i + 1);
        match matcher(paths[i], userInput)
        case Some(indices) =>
          assert matched + Matches(paths, userInput, matcher, i) == (matched + [Entry(false, i, indices)]) + rest;
          matched := matched + [Entry(false, i, indices)];
        case None =>
      }
      assert Matches(paths, userInput, matcher, |paths|) == [];
      assert matched + [] == matched;
      filter := matched;
    }

    /** The marking loop of `ui`; false when a path has no file name. */
    method MarkActive() returns (ok: bool)
      requires ValidFilter(filter, |paths|)
      modifies this
      ensures ok <==> Named(paths, old(filter))
      ensures ok ==> filter == Marked(paths, active, old(filter))
      ensures userInput == old(userInput) && selected == old(selected) && active == old(active)
    {
      var marked;
      marked, ok := MarkEntries(paths, active, filter);
      filter := marked;
    }

    /** What `ui` does to the app: mark, then move the active entries
        first; false when an `unwrap` panics. */
    method Draw() returns (ok: bool)
      requires ValidFilter(filter, |paths|)
      modifies this
      ensures ok <==> Redraw(paths, active, old(filter)).Ok?
      ensures ok ==> filter == Redraw(paths, active, old(filter)).value
      ensures userInput == old(userInput) && selected == old(selected) && active == old(active)
    {
      ok := MarkActive();
      if ok {
        filter := ActiveFirst(filter);
      }
    }

    /** One key of `run_app`. */
    method HandleKey(code: KeyCode, mods: Modifiers) returns (o: Outcome)
      requires ValidFilter(filter, |paths|)
      modifies this
      ensures (Snapshot(), o) == KeyStep(paths, matcher, old(Snapshot()), code, mods)
      ensures active == old(active)
    {
      match (code, mods)
      case (Char(c), NoModifier) =>
        userInput := userInput + [c];
        selected := Some(0);
        Update();
        o := Continue;
      case (Backspace, NoModifier) =>
        if userInput != [] {
          userInput := userInput[..|userInput| - 1];
        }
        Update();
        o := Continue;
      case (Enter, NoModifier) =>
        if filter == [] {
          o := Continue;
        } else if selected.None? {
          o := Panicked(UnwrapNone);
        } else if selected.value >= |filter| {
          o := Panicked(IndexOutOfBounds);
        } else {
          o := Launch(paths[filter[selected.value].index]);
        }
      case (Esc, NoModifier) =>
        o := Quit;
      case (Char('c'), ControlOnly) =>
        o := Quit;
      case (Char('j'), ControlOnly) =>
        Next();
        o := Continue;
      case (Char('k'), ControlOnly) =>
        Prev();
        o := Continue;
      case _ =>
        o := Continue;
    }
  }

  /** `run_app`: filter for the empty input, select the first row, then
      draw and dispatch one event at a time. */
  method RunApp(app: App, events: seq<Event>) returns (r: RunEnd)
    requires app.userInput == []
    modifies app
    ensures r == RunFrom(app.paths, old(app.active), app.matcher, Start(app.paths, app.matcher), events)
  {
    app.Update();
    app.selected := Some(0);
    ghost var start := app.Snapshot();
    var i := 0;
    while true
      invariant i <= |events|
      invariant ValidFilter(app.filter, |app.paths|)
      invariant app.active == old(app.active)
      invariant RunFrom(app.paths, app.active, app.matcher, app.Snapshot(), events[i..]) ==
                RunFrom(app.paths, app.active, app.matcher, start, events)
      decreases |events| - i
    {
      ghost var before := app.Snapshot();
      var ok := app.Draw();
      if !ok {
        return Stopped(Panicked(NoFileName));
      }
      if i == |events| {
        return Waiting(app.Snapshot());
      }
      ghost var drawn := app.Snapshot();
      assert drawn == before.(filter := app.filter);
      assert events[i..][1..] == events[i + 1..];
      match events[i] {
        case ReadFailed =>
          return ReadError;
        case NotKey =>
          assert RunFrom(app.paths, app.active, app.matcher, before, events[i..])
            == RunFrom(app.paths, app.active, app.matcher, drawn, events[i + 1..]);
        case Key(code, mods) =>
          var o := app.HandleKey(code, mods);
          if o != Continue {
            return Stopped(o);
          }
          assert RunFrom(app.paths, app.active, app.matcher, before, events[i..])
            == RunFrom(app.paths, app.active, app.matcher, app.Snapshot(), events[i + 1..]);
      }
      i := i + 1;
    }
  }
}
