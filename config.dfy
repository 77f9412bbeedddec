/** The configuration of src/config.rs.  The list of directories to search
    is a map from a directory to its search depths, saved one entry per
    line as `path:|:min_depth:|:max_depth` and loaded back with
    `Paths::from_str`.  The colour theme starts from fixed defaults and is
    overridden by `name = value` lines, where the value is an ANSI colour
    number from 0 to 15.  Reading and writing the files, the directory walk
    of `expand_paths` and the global theme lock are not part of this
    model. */
module Config {
  import opened RustText

  /** The field separator of a saved line. */
  const SEP: string := ":|:"

  datatype Flags = Flags(minDepth: Usize, maxDepth: Usize)

  /** `map.entry(key).or_insert(flags)`: the first writer wins. */
  function OrInsert(m: map<string, Flags>, key: string, flags: Flags): (r: map<string, Flags>)
    ensures r.Keys == m.Keys + {key}
    ensures forall k :: k in m ==> r[k] == m[k]
    ensures key !in m ==> r[key] == flags
  {
    if key in m then m else m[key := flags]
  }

  // ---------------------------------------------------------------------
  // Loading: Paths::from_str

  datatype ParseError =
    | InvalidNumberOfValues
    | InvalidMinDepth(line: nat)
    | InvalidMaxDepth(line: nat)
  {
    /** The error text `from_str` returns. */
    function Message(): string {
      match this
      case InvalidNumberOfValues => "Invalid number of values"
      case InvalidMinDepth(i) => "Error on line " + NatToString(i) + ", invalid min_depth"
      case InvalidMaxDepth(i) => "Error on line " + NatToString(i) + ", invalid max_depth"
    }
  }

  /** One line of the saved list, the `i`-th: exactly three fields between
      `:|:` separators, the directory and two `usize` depths. */
  function ParseRow(line: string, i: nat): (r: Result<(string, Flags), ParseError>)
    ensures r.Ok? ==> Find(line, SEP) == Some(|r.value.0|) && line[..|r.value.0|] == r.value.0
    ensures r == Err(InvalidNumberOfValues) <==> |Split(line, SEP)| != 3
    ensures r.Err? && !r.error.InvalidNumberOfValues? ==> r.error.line == i
    ensures |Split(line, SEP)| == 3 ==>
      (r == Err(InvalidMinDepth(i)) <==> ParseUnsigned(Split(line, SEP)[1], USIZE_LIMIT).None?)
    ensures |Split(line, SEP)| == 3 ==>
      (r == Err(InvalidMaxDepth(i)) <==>
        ParseUnsigned(Split(line, SEP)[1], USIZE_LIMIT).Some? && ParseUnsigned(Split(line, SEP)[2], USIZE_LIMIT).None?)
    ensures r.Ok? ==>
      && |Split(line, SEP)| == 3
      && r.value.0 == Split(line, SEP)[0]
      && r.value.1 == Flags(ParseUnsigned(Split(line, SEP)[1], USIZE_LIMIT).value,
                            ParseUnsigned(Split(line, SEP)[2], USIZE_LIMIT).value)
  {
    var values := Split(line, SEP);
    if |values| != 3 then Err(InvalidNumberOfValues)
    else
      match ParseUnsigned(values[1], USIZE_LIMIT)
      case None => Err(InvalidMinDepth(i))
      case Some(lo) =>
        match ParseUnsigned(values[2], USIZE_LIMIT)
        case None => Err(InvalidMaxDepth(i))
        case Some(hi) => Ok((values[0], Flags(lo, hi)))
  }

  /** The outcome of each line, in order. */
  function RowResults(lines: seq<string>): (rs: seq<Result<(string, Flags), ParseError>>)
    ensures |rs| == |lines|
  {
    seq(|lines|, j requires 0 <= j < |lines| => ParseRow(lines[j], j))
  }

  /** The entries from row `i` on inserted into `acc`, stopping at the first
      bad row. */
  function Collect(rows: seq<Result<(string, Flags), ParseError>>, i: nat, acc: map<string, Flags>)
    : Result<map<string, Flags>, ParseError>
    requires i <= |rows|
    decreases |rows| - i
  {
    if i == |rows| then Ok(acc)
    else match rows[i]
      case Err(e) => Err(e)
      case Ok((key, flags)) => Collect(rows, i + 1, OrInsert(acc, key, flags))
  }

  /** What `Paths::from_str(s)` yields: the map of the `Paths` it builds, or
      its error. */
  function PathsOf(s: string): Result<map<string, Flags>, ParseError> {
    Collect(RowResults(Lines(s)), 0, map[])
  }

  /** The loop of `Paths::from_str`: each line is split, its depths parsed,
      and its entry inserted unless the directory is already present. */
  method ParseRows(s: string) returns (r: Result<map<string, Flags>, ParseError>)
    ensures r == PathsOf(s)
  {
    var lines := Lines(s);
    ghost var rows := RowResults(lines);
    ghost var goal := Collect(rows, 0, map[]);
    var m: map<string, Flags> := map[];
    var i := 0;
    while i < |lines|
      invariant i <= |lines|
      invariant Collect(rows, i, m) == goal
    {
      var row := ParseRow(lines[i], i);
      assert rows[i] == row;
      if row.Err? {
        return Err(row.error);
      }
      m := OrInsert(m, row.value.0, row.value.1);
      i := i + 1;
    }
    return Ok(m);
  }

  /** Collecting fails exactly when some row is bad. */
  lemma {:induction false} CollectError(rows: seq<Result<(string, Flags), ParseError>>, i: nat, acc: map<string, Flags>)
    requires i <= |rows|
    ensures Collect(rows, i, acc).Err? <==> exists j :: i <= j < |rows| && rows[j].Err?
    decreases |rows| - i
  {
    if i < |rows| && rows[i].Ok? {
      var (key, flags) := rows[i].value;
      CollectError(rows, i + 1, OrInsert(acc, key, flags));
    }
  }

  /** A failed collection fails with the error of the first bad row. */
  lemma {:induction false} CollectFirstError(rows: seq<Result<(string, Flags), ParseError>>, i: nat, acc: map<string, Flags>)
    requires i <= |rows| && Collect(rows, i, acc).Err?
    ensures exists j :: (i <= j < |rows| && rows[j] == Err(Collect(rows, i, acc).error) &&
      forall j' :: i <= j' < j ==> rows[j'].Ok?)
    decreases |rows| - i
  {
    if rows[i].Ok? {
      var (key, flags) := rows[i].value;
      CollectFirstError(rows, i + 1, OrInsert(acc, key, flags));
    } else {
      assert rows[i] == Err(Collect(rows, i, acc).error);
    }
  }

  /** The directories named by the good rows from `i` on. */
  ghost function KeysFrom(rows: seq<Result<(string, Flags), ParseError>>, i: nat): set<string>
    requires i <= |rows|
    decreases |rows| - i
  {
    if i == |rows| then {}
    else (if rows[i].Ok? then {rows[i].value.0} else {}) + KeysFrom(rows, i + 1)
  }

  lemma {:induction false} KeysFromIff(rows: seq<Result<(string, Flags), ParseError>>, i: nat, k: string)
    requires i <= |rows|
    ensures k in KeysFrom(rows, i) <==> exists j :: i <= j < |rows| && rows[j].Ok? && rows[j].value.0 == k
    decreases |rows| - i
  {
    if i < |rows| {
      KeysFromIff(rows, i + 1, k);
    }
  }

  /** A successful collection keeps what `acc` held and adds exactly the
      directories of the rows. */
  lemma {:induction false} CollectKeys(rows: seq<Result<(string, Flags), ParseError>>, i: nat, acc: map<string, Flags>)
    requires i <= |rows| && Collect(rows, i, acc).Ok?
    ensures var m := Collect(rows, i, acc).value;
      m.Keys == acc.Keys + KeysFrom(rows, i) && forall k :: k in acc ==> m[k] == acc[k]
    decreases |rows| - i
  {
    if i < |rows| {
      var (key, flags) := rows[i].value;
      CollectKeys(rows, i + 1, OrInsert(acc, key, flags));
    }
  }

  /** No row of `rows[i..j]` names the directory of row `j`. */
  ghost predicate FirstWithKey(rows: seq<Result<(string, Flags), ParseError>>, i: nat, j: nat)
    requires i <= j < |rows|
  {
    rows[j].Ok? && forall j' :: i <= j' < j ==> rows[j'].Ok? && rows[j'].value.0 != rows[j].value.0
  }

  /** A directory not in `acc` gets the depths of the first row naming it. */
  lemma {:induction false} CollectFirst(rows: seq<Result<(string, Flags), ParseError>>, i: nat, acc: map<string, Flags>, j: nat)
    requires i <= j < |rows| && Collect(rows, i, acc).Ok?
    requires FirstWithKey(rows, i, j) && rows[j].value.0 !in acc
    ensures rows[j].value.0 in Collect(rows, i, acc).value
    ensures Collect(rows, i, acc).value[rows[j].value.0] == rows[j].value.1
    decreases |rows| - i
  {
    var (key, flags) := rows[i].value;
    var acc' := OrInsert(acc, key, flags);
    if j == i {
      CollectKeys(rows, i + 1, acc');
    } else {
      assert FirstWithKey(rows, i + 1, j);
      CollectFirst(rows, i + 1, acc', j);
    }
  }

  /** `from_str` on the whole text: every line parses, the directories are
      exactly those of the lines, and a repeated directory keeps the depths
      of its first line. */
  lemma FirstOccurrenceWins(s: string)
    requires PathsOf(s).Ok?
    ensures var rows := RowResults(Lines(s)); var m := PathsOf(s).value;
      && (forall j :: 0 <= j < |rows| ==> rows[j].Ok?)
      && (forall k :: k in m <==> exists j :: 0 <= j < |rows| && rows[j].Ok? && rows[j].value.0 == k)
      && (forall j :: 0 <= j < |rows| && FirstWithKey(rows, 0, j) ==> rows[j].value.0 in m && m[rows[j].value.0] == rows[j].value.1)
  {
    var rows := RowResults(Lines(s));
    var m := PathsOf(s).value;
    CollectError(rows, 0, map[]);
    CollectKeys(rows, 0, map[]);
    forall k ensures k in m <==> exists j :: 0 <= j < |rows| && rows[j].Ok? && rows[j].value.0 == k {
      KeysFromIff(rows, 0, k);
    }
    forall j | 0 <= j < |rows| && FirstWithKey(rows, 0, j)
      ensures rows[j].value.0 in m && m[rows[j].value.0] == rows[j].value.1
    {
      CollectFirst(rows, 0, map[], j);
    }
  }

  // ---------------------------------------------------------------------
  // Saving: Paths::to_string

  /** The saved line of one entry. */
  function Row(key: string, flags: Flags): string {
    key + SEP + NatToString(flags.minDepth) + SEP + NatToString(flags.maxDepth)
  }

  /** `order` lists each key of the map once: the order in which the hash
      map happens to iterate, which the model leaves open. */
  ghost predicate Enumerates(order: seq<string>, keys: set<string>) {
    && (forall k :: k in keys <==> k in order)
    && (forall i, j :: 0 <= i < j < |order| ==> order[i] != order[j])
  }

  /** The saved lines of a map in the order `order`. */
  function RowLines(rows: map<string, Flags>, order: seq<string>): (ls: seq<string>)
    requires forall k :: k in order ==> k in rows
  {
    seq(|order|, i requires 0 <= i < |order| => Row(order[i], rows[order[i]]))
  }

  /** A directory that survives a save and load: no `:|:` in it, no `:|`
      at its end (that would make a `:|:` with the separator) and no line
      break. */
  predicate SerializableKey(k: string) {
    '\n' !in k && Find(k + ":|", SEP).None?
  }

  /** The map of a `Paths`, owned and updated in place. */
  class Paths {
    var rows: map<string, Flags>

    constructor (rows: map<string, Flags>)
      ensures this.rows == rows
    {
      this.rows := rows;
    }

    /** `Paths::from_str`. */
    static method FromStr(s: string) returns (r: Result<Paths, ParseError>)
      ensures r.Ok? ==> fresh(r.value) && PathsOf(s) == Ok(r.value.rows)
      ensures r.Err? ==> PathsOf(s) == Err(r.error)
    {
      var parsed := ParseRows(s);
      match parsed
      case Err(e) => return Err(e);
      case Ok(m) =>
        var p := new Paths(m);
        return Ok(p);
    }

    /** `insert_row`: adds a directory, never changes one already there. */
    method InsertRow(path: string, minDepth: Usize, maxDepth: Usize)
      modifies this
      ensures rows == OrInsert(old(rows), path, Flags(minDepth, maxDepth))
      ensures path in old(rows) ==> rows == old(rows)
    {
      rows := OrInsert(rows, path, Flags(minDepth, maxDepth));
    }

    /** `to_string`: one saved line per entry, joined by '\n'. */
    function ToString(order: seq<string>): (s: string)
      reads this
      requires Enumerates(order, rows.Keys)
      ensures s == [] <==> rows == map[]
      ensures (forall k :: k in rows ==> '\n' !in k) ==> Lines(s) == RowLines(rows, order)
      ensures s != [] ==> IsDigit(s[|s| - 1])
      ensures (forall k :: k in rows ==> '\r' !in k) ==> '\r' !in s
    {
      SavedTextEmpty(rows, order);
      SavedTextEnd(rows, order);
      SavedTextLines(rows, order);
      SavedTextNoCr(rows, order);
      Join(RowLines(rows, order), "\n")
    }
  }

  /** The saved text is empty only for the empty map. */
  lemma SavedTextEmpty(rows: map<string, Flags>, order: seq<string>)
    requires Enumerates(order, rows.Keys)
    ensures Join(RowLines(rows, order), "\n") == [] <==> rows == map[]
  {
    assert rows == map[] <==> order == [] by {
      if order != [] { assert order[0] in rows; }
      if rows != map[] { var k :| k in rows; assert k in order; }
    }
    if order != [] {
      JoinLast(RowLines(rows, order), "\n");
    }
  }

  /** Without line breaks in the directories, the lines of the saved text
      are the rows. */
  lemma SavedTextLines(rows: map<string, Flags>, order: seq<string>)
    requires Enumerates(order, rows.Keys)
    ensures (forall k :: k in rows ==> '\n' !in k) ==>
      Lines(Join(RowLines(rows, order), "\n")) == RowLines(rows, order)
  {
    var ls := RowLines(rows, order);
    if forall k :: k in rows ==> '\n' !in k {
      forall i | 0 <= i < |ls| ensures PlainLine(ls[i]) {
        RowIsPlain(order[i], rows[order[i]]);
      }
      LinesOfJoin(ls);
    }
  }

  /** The saved text ends in a digit, so not in a line break. */
  lemma SavedTextEnd(rows: map<string, Flags>, order: seq<string>)
    requires Enumerates(order, rows.Keys)
    ensures Join(RowLines(rows, order), "\n") != [] ==>
      IsDigit(Join(RowLines(rows, order), "\n")[|Join(RowLines(rows, order), "\n")| - 1])
  {
    var ls := RowLines(rows, order);
    if ls != [] {
      var last := |ls| - 1;
      RowEndsInDigit(order[last], rows[order[last]]);
      JoinLast(ls, "\n");
    }
  }

  /** Without carriage returns in the directories, the saved text has none. */
  lemma SavedTextNoCr(rows: map<string, Flags>, order: seq<string>)
    requires Enumerates(order, rows.Keys)
    ensures (forall k :: k in rows ==> '\r' !in k) ==> '\r' !in Join(RowLines(rows, order), "\n")
  {
    var ls := RowLines(rows, order);
    if forall k :: k in rows ==> '\r' !in k {
      forall i | 0 <= i < |ls| ensures '\r' !in ls[i] {
        RowAvoids(order[i], rows[order[i]], '\r');
      }
      JoinAvoids(ls, "\n", '\r');
    }
  }

  /** The fields of a saved line: the directory and the two printed depths. */
  lemma RowFields(key: string, flags: Flags)
    requires SerializableKey(key)
    ensures Split(Row(key, flags), SEP) == [key, NatToString(flags.minDepth), NatToString(flags.maxDepth)]
  {
    var lo, hi := NatToString(flags.minDepth), NatToString(flags.maxDepth);
    NoColonIsSerializable(lo);
    NoColonNoSep(hi);
    assert Row(key, flags) == key + SEP + (lo + SEP + hi);
    FindAfterSerializable(key, lo + SEP + hi);
    SplitAtFirst(key, SEP, lo + SEP + hi);
    FindAfterSerializable(lo, hi);
    SplitAtFirst(lo, SEP, hi);
  }

  /** A saved line parses back into its entry. */
  lemma RowParses(key: string, flags: Flags, i: nat)
    requires SerializableKey(key)
    ensures ParseRow(Row(key, flags), i) == Ok((key, flags))
  {
    RowFields(key, flags);
    ParseOfNatToString(flags.minDepth, USIZE_LIMIT);
    ParseOfNatToString(flags.maxDepth, USIZE_LIMIT);
  }

  /** A saved row ends in the last digit of its maximum depth. */
  lemma RowEndsInDigit(key: string, flags: Flags)
    ensures Row(key, flags) != [] && IsDigit(Row(key, flags)[|Row(key, flags)| - 1])
  {
    var r := Row(key, flags);
    var hi := NatToString(flags.maxDepth);
    assert r[|r| - 1] == hi[|hi| - 1];
  }

  /** A character that is not in the directory, not a digit and not part
      of the separator is not in the saved row. */
  lemma RowAvoids(key: string, flags: Flags, c: char)
    requires c !in key && c != ':' && c != '|' && !IsDigit(c)
    ensures c !in Row(key, flags)
  {
    var lo, hi := NatToString(flags.minDepth), NatToString(flags.maxDepth);
    assert forall k :: 0 <= k < |lo| ==> IsDigit(lo[k]);
    assert forall k :: 0 <= k < |hi| ==> IsDigit(hi[k]);
    assert Row(key, flags) == key + SEP + lo + SEP + hi;
  }

  lemma RowIsPlain(key: string, flags: Flags)
    requires '\n' !in key
    ensures PlainLine(Row(key, flags))
  {
    var r := Row(key, flags);
    var hi := NatToString(flags.maxDepth);
    assert r[|r| - 1] == hi[|hi| - 1];
    assert IsDigit(hi[|hi| - 1]);
    var lo := NatToString(flags.minDepth);
    assert forall c :: c in lo ==> IsDigit(c);
    assert forall c :: c in hi ==> IsDigit(c);
  }

  lemma NoColonNoSep(s: string)
    requires forall i :: 0 <= i < |s| ==> s[i] != ':'
    ensures Find(s, SEP).None?
  {
    forall j | 0 <= j ensures !Occurs(s, SEP, j) {
      if j + 3 <= |s| {
        assert s[j..j + 3][0] == s[j];
      }
    }
  }

  lemma NoColonIsSerializable(s: string)
    requires AllDigits(s)
    ensures SerializableKey(s)
  {
    var t := s + ":|";
    forall j | 0 <= j ensures !Occurs(t, SEP, j) {
      if j + 3 <= |t| {
        assert t[j..j + 3][0] == t[j] == s[j];
        assert IsDigit(s[j]);
      }
    }
  }

  /** After a serializable text, the first separator is the one that
      follows it. */
  lemma FindAfterSerializable(k: string, rest: string)
    requires SerializableKey(k)
    ensures Find(k + SEP + rest, SEP) == Some(|k|)
    ensures (k + SEP + rest)[..|k|] == k
  {
    var s := k + SEP + rest;
    assert s[|k|..|k| + 3] == SEP;
    assert Occurs(s, SEP, |k|);
    forall j | 0 <= j < |k| ensures !Occurs(s, SEP, j) {
      if Occurs(s, SEP, j) {
        assert s[j..j + 3] == (k + ":|")[j..j + 3];
        assert Occurs(k + ":|", SEP, j);
      }
    }
  }

  /** The map of the first `i` keys of `order`, grown by one key. */
  lemma PrefixMapStep(rows: map<string, Flags>, order: seq<string>, i: nat)
    requires Enumerates(order, rows.Keys) && i < |order|
    ensures OrInsert(map k | k in order[..i] :: rows[k], order[i], rows[order[i]]) ==
            map k | k in order[..i + 1] :: rows[k]
  {
    assert order[i] !in order[..i];
    assert order[..i + 1] == order[..i] + [order[i]];
  }

  lemma {:induction false} ParseOfRows(rows: map<string, Flags>, order: seq<string>, i: nat)
    requires Enumerates(order, rows.Keys) && i <= |order|
    requires forall k :: k in rows ==> SerializableKey(k)
    ensures Collect(RowResults(RowLines(rows, order)), i, map k | k in order[..i] :: rows[k]) == Ok(rows)
    decreases |order| - i
  {
    var results := RowResults(RowLines(rows, order));
    if i == |order| {
      assert order[..i] == order;
      assert (map k | k in order[..i] :: rows[k]) == rows;
    } else {
      RowParses(order[i], rows[order[i]], i);
      assert results[i] == Ok((order[i], rows[order[i]]));
      PrefixMapStep(rows, order, i);
      ParseOfRows(rows, order, i + 1);
    }
  }

  /** Saving and loading are inverse: the text `to_string` writes is parsed
      by `from_str` into the same map, whatever order the map iterated in,
      as long as no directory holds a line break, a `:|:`, or ends in `:|`.
      The empty map saves as "" and "" loads as the empty map. */
  lemma RoundTrip(p: Paths, order: seq<string>)
    requires Enumerates(order, p.rows.Keys)
    requires forall k :: k in p.rows ==> SerializableKey(k)
    ensures PathsOf(p.ToString(order)) == Ok(p.rows)
  {
    assert order[..0] == [];
    ParseOfRows(p.rows, order, 0);
  }

  /** A directory ending in `:|` does not survive: "a:|" saved with depths
      1 and 2 gives a line that splits into "a", "|:1" and "2", and
      loading the list fails. */
  lemma RoundTripFailsForKeyEndingInSeparatorPrefix()
    ensures PathsOf(Row("a:|", Flags(1, 2))) == Err(InvalidMinDepth(0))
  {
    var line := Row("a:|", Flags(1, 2));
    assert NatToString(1) == "1" && NatToString(2) == "2";
    assert line == "a" + SEP + ("|:1" + SEP + "2");
    MisreadRowParse();
    RowIsPlain("a:|", Flags(1, 2));
    PathsOfOneLine(line);
  }

  /** A text of one line loads as that line's entry, or fails with its error. */
  lemma PathsOfOneLine(line: string)
    requires PlainLine(line)
    ensures PathsOf(line) == match ParseRow(line, 0)
      case Err(e) => Err(e)
      case Ok((key, flags)) => Ok(map[key := flags])
  {
    assert Join([line], "\n") == line;
    LinesOfJoin([line]);
    var rows := RowResults([line]);
    assert rows[0] == ParseRow(line, 0);
    if rows[0].Ok? {
      var (key, flags) := rows[0].value;
      assert OrInsert(map[], key, flags) == map[key := flags];
      assert Collect(rows, 0, map[]) == Collect(rows, 1, map[key := flags]);
    }
  }

  lemma MisreadRowParse()
    ensures ParseRow("a" + SEP + ("|:1" + SEP + "2"), 0) == Err(InvalidMinDepth(0))
  {
    SplitOfMisreadRow();
    assert !IsDigit('|');
  }

  /** Two serializable fields and a colon-free one split back apart. */
  lemma SplitOfThreeFields(a: string, b: string, c: string)
    requires SerializableKey(a) && SerializableKey(b)
    requires forall i :: 0 <= i < |c| ==> c[i] != ':'
    ensures Split(a + SEP + (b + SEP + c), SEP) == [a, b, c]
  {
    FindAfterSerializable(a, b + SEP + c);
    SplitAtFirst(a, SEP, b + SEP + c);
    FindAfterSerializable(b, c);
    SplitAtFirst(b, SEP, c);
    NoColonNoSep(c);
  }

  /** The saved line of "a:|" splits at the `:|:` that ends with its
      first separator. */
  lemma SplitOfMisreadRow()
    ensures Split("a" + SEP + ("|:1" + SEP + "2"), SEP) == ["a", "|:1", "2"]
  {
    assert SerializableKey("a") by {
      var t := "a" + ":|";
      forall j | 0 <= j ensures !Occurs(t, SEP, j) {
        if j + 3 <= |t| {
          assert t[j..j + 3][0] == t[j];
        }
      }
    }
    assert SerializableKey("|:1") by {
      var t := "|:1" + ":|";
      forall j | 0 <= j ensures !Occurs(t, SEP, j) {
        if j + 3 <= |t| {
          assert t[j..j + 3][0] == t[j] && t[j..j + 3][1] == t[j + 1];
        }
      }
    }
    SplitOfThreeFields("a", "|:1", "2");
  }

  // ---------------------------------------------------------------------
  // Colours

  /** The colours of the terminal UI library that the theme uses. */
  datatype Color =
    | Black | Red | Green | Yellow | Blue | Magenta | Cyan | Gray
    | DarkGray | LightRed | LightGreen | LightYellow | LightBlue | LightMagenta | LightCyan | White

  /** The ANSI number of a colour. */
  function AnsiIndex(c: Color): nat {
    match c
    case Black => 0 case Red => 1 case Green => 2 case Yellow => 3
    case Blue => 4 case Magenta => 5 case Cyan => 6 case Gray => 7
    case DarkGray => 8 case LightRed => 9 case LightGreen => 10 case LightYellow => 11
    case LightBlue => 12 case LightMagenta => 13 case LightCyan => 14 case White => 15
  }

  /** `int_to_ansi_colors`: the colour with ANSI number `i`, for 0 to 15. */
  function IntToAnsiColors(i: U8): (r: Option<Color>)
    ensures r.Some? <==> i <= 15
    ensures r.Some? ==> AnsiIndex(r.value) == i
  {
    match i
    case 0 => Some(Black)
    case 1 => Some(Red)
    case 2 => Some(Green)
    case 3 => Some(Yellow)
    case 4 => Some(Blue)
    case 5 => Some(Magenta)
    case 6 => Some(Cyan)
    case 7 => Some(Gray)
    case 8 => Some(DarkGray)
    case 9 => Some(LightRed)
    case 10 => Some(LightGreen)
    case 11 => Some(LightYellow)
    case 12 => Some(LightBlue)
    case 13 => Some(LightMagenta)
    case 14 => Some(LightCyan)
    case 15 => Some(White)
    case _ => None
  }

  /** Every colour is reached, from its own ANSI number. */
  lemma AnsiTableIsOnto(c: Color)
    ensures AnsiIndex(c) <= 15 && IntToAnsiColors(AnsiIndex(c)) == Some(c)
  {
  }

  /** The five colours of the theme. */
  datatype Field = Fg | Border | Inactive | Active | Selection

  datatype Palette = Palette(fg: Color, border: Color, inactive: Color, active: Color, selection: Color) {
    function Get(f: Field): Color {
      match f
      case Fg => fg
      case Border => border
      case Inactive => inactive
      case Active => active
      case Selection => selection
    }

    /** What the setter of `f` does with the number `v`: the colour changes
        only for an ANSI number from 0 to 15. */
    function Set(f: Field, v: U8): (p: Palette)
      ensures forall g :: g != f ==> p.Get(g) == Get(g)
      ensures p.Get(f) == if v <= 15 then IntToAnsiColors(v).value else Get(f)
    {
      match IntToAnsiColors(v)
      case None => this
      case Some(c) =>
        match f
        case Fg => this.(fg := c)
        case Border => this.(border := c)
        case Inactive => this.(inactive := c)
        case Active => this.(active := c)
        case Selection => this.(selection := c)
    }
  }

  /** `Colors::new()`. */
  const DEFAULT_PALETTE := Palette(White, White, DarkGray, Red, Green)

  /** The field a name in the theme file selects. */
  function FieldNamed(name: string): Option<Field> {
    if name == "fg" then Some(Fg)
    else if name == "border" then Some(Border)
    else if name == "inactive" then Some(Inactive)
    else if name == "active" then Some(Active)
    else if name == "selection" then Some(Selection)
    else None
  }

  /** The setting a theme line asks for, or None for a line the loop skips:
      an empty line, one without '=', one whose trimmed value is not a `u8`
      and one whose trimmed name is not a theme colour. */
  function ColorLine(line: string): Option<(Field, U8)> {
    if line == [] then None
    else match SplitOnce(line, '=')
      case None => None
      case Some((name, val)) =>
        match ParseUnsigned(Trim(val), 256)
        case None => None
        case Some(v) =>
          match FieldNamed(Trim(name))
          case None => None
          case Some(f) => Some((f, v))
  }

  /** A line that sets a colour is a name, '=' and a value: the trimmed
      name is a theme colour and the trimmed value a `u8`. */
  lemma ColorLineParts(line: string)
    ensures ColorLine(line).Some? ==>
      exists name, val :: (line == name + "=" + val && '=' !in name &&
        FieldNamed(Trim(name)) == Some(ColorLine(line).value.0) &&
        ParseUnsigned(Trim(val), 256) == Some(ColorLine(line).value.1))
  {
    if ColorLine(line).Some? {
      var (name, val) := SplitOnce(line, '=').value;
      assert line == name + "=" + val;
    }
  }

  /** A non-empty line with '=' and a `u8` after it sets the colour its
      trimmed name selects, if any. */
  lemma ColorLineOfParts(line: string, name: string, val: string, v: U8)
    requires line != [] && SplitOnce(line, '=') == Some((name, val)) && ParseUnsigned(Trim(val), 256) == Some(v)
    ensures ColorLine(line) == match FieldNamed(Trim(name))
      case None => None
      case Some(f) => Some((f, v))
  {
  }

  function ApplyLine(p: Palette, line: string): Palette {
    match ColorLine(line)
    case None => p
    case Some((f, v)) => p.Set(f, v)
  }

  /** The theme after the lines of the file, read from first to last. */
  function ApplyLines(p: Palette, lines: seq<string>): Palette
    decreases |lines|
  {
    if lines == [] then p
    else ApplyLine(ApplyLines(p, lines[..|lines| - 1]), lines[|lines| - 1])
  }

  /** Line `line` sets field `f` to colour `c`. */
  predicate SetsTo(line: string, f: Field, c: Color) {
    ColorLine(line).Some? && ColorLine(line).value.0 == f &&
    IntToAnsiColors(ColorLine(line).value.1) == Some(c)
  }

  /** Line `line` changes field `f`. */
  predicate Sets(line: string, f: Field) {
    ColorLine(line).Some? && ColorLine(line).value.0 == f && ColorLine(line).value.1 <= 15
  }

  lemma ApplyLineGet(q: Palette, line: string, f: Field)
    ensures ApplyLine(q, line).Get(f) ==
      if Sets(line, f) then IntToAnsiColors(ColorLine(line).value.1).value else q.Get(f)
  {
  }

  /** The last line that sets a colour decides it; a colour no line sets
      keeps its value. */
  lemma {:induction false} LastLineWins(p: Palette, lines: seq<string>, f: Field)
    ensures (forall j :: 0 <= j < |lines| ==> !Sets(lines[j], f)) ==> ApplyLines(p, lines).Get(f) == p.Get(f)
    ensures forall j, c ::
      (0 <= j < |lines| && SetsTo(lines[j], f, c) && (forall j' :: j < j' < |lines| ==> !Sets(lines[j'], f))) ==>
        ApplyLines(p, lines).Get(f) == c
    decreases |lines|
  {
    if lines != [] {
      var n := |lines| - 1;
      var init := lines[..n];
      var q := ApplyLines(p, init);
      assert ApplyLines(p, lines) == ApplyLine(q, lines[n]);
      ApplyLineGet(q, lines[n], f);
      LastLineWins(p, init, f);
      assert forall j :: 0 <= j < n ==> init[j] == lines[j];
      forall j, c | 0 <= j < |lines| && SetsTo(lines[j], f, c) && (forall j' :: j < j' < |lines| ==> !Sets(lines[j'], f))
        ensures ApplyLines(p, lines).Get(f) == c
      {
        assert !Sets(lines[n], f) || j == n;
      }
    }
  }

  /** The theme object whose setters `get_or_init_config` calls. */
  class Colors {
    var fg: Color
    var border: Color
    var inactive: Color
    var active: Color
    var selection: Color

    function Snapshot(): Palette
      reads this
    {
      Palette(fg, border, inactive, active, selection)
    }

    /** `Colors::new()`. */
    constructor ()
      ensures Snapshot() == DEFAULT_PALETTE
    {
      fg, border, inactive, active, selection := White, White, DarkGray, Red, Green;
    }

    method SetBorder(v: U8)
      modifies this
      ensures Snapshot() == old(Snapshot()).Set(Border, v)
    {
      var c := IntToAnsiColors(v);
      if c.Some? {
        border := c.value;
      }
    }

    method SetInactive(v: U8)
      modifies this
      ensures Snapshot() == old(Snapshot()).Set(Inactive, v)
    {
      var c := IntToAnsiColors(v);
      if c.Some? {
        inactive := c.value;
      }
    }

    method SetActive(v: U8)
      modifies this
      ensures Snapshot() == old(Snapshot()).Set(Active, v)
    {
      var c := IntToAnsiColors(v);
      if c.Some? {
        active := c.value;
      }
    }

    method SetSelection(v: U8)
      modifies this
      ensures Snapshot() == old(Snapshot()).Set(Selection, v)
    {
      var c := IntToAnsiColors(v);
      if c.Some? {
        selection := c.value;
      }
    }

    method SetFg(v: U8)
      modifies this
      ensures Snapshot() == old(Snapshot()).Set(Fg, v)
    {
      var c := IntToAnsiColors(v);
      if c.Some? {
        fg := c.value;
      }
    }

    /** The loop of `get_or_init_config` over the lines of the theme file. */
    method ApplyConfig(contents: string)
      modifies this
      ensures Snapshot() == ApplyLines(old(Snapshot()), Lines(contents))
    {
      var lines := Lines(contents);
      var i := 0;
      while i < |lines|
        invariant i <= |lines|
        invariant Snapshot() == ApplyLines(old(Snapshot()), lines[..i])
      {
        assert lines[..i + 1][..i] == lines[..i];
        ApplyConfigLine(lines[i]);
        i := i + 1;
      }
      assert lines[..i] == lines;
    }

    /** One turn of that loop: the setter the line names, with its value. */
    method ApplyConfigLine(line: string)
      modifies this
      ensures Snapshot() == ApplyLine(old(Snapshot()), line)
    {
      if line != [] {
        var parts := SplitOnce(line, '=');
        if parts.Some? {
          var name := Trim(parts.value.0);
          var val := Trim(parts.value.1);
          var value := ParseUnsigned(val, 256);
          if value.Some? {
            ColorLineOfParts(line, parts.value.0, parts.value.1, value.value);
            SetNamed(name, value.value);
            if FieldNamed(name).Some? {
              assert ColorLine(line) == Some((FieldNamed(name).value, value.value));
            }
          }
        }
      }
    }

    /** The setter chosen by the trimmed name; an unknown name sets nothing. */
    method SetNamed(name: string, v: U8)
      modifies this
      ensures Snapshot() == match FieldNamed(name)
        case None => old(Snapshot())
        case Some(f) => old(Snapshot()).Set(f, v)
    {
      if name == "fg" {
        SetFg(v);
      } else if name == "border" {
        SetBorder(v);
      } else if name == "inactive" {
        SetInactive(v);
      } else if name == "active" {
        SetActive(v);
      } else if name == "selection" {
        SetSelection(v);
      }
    }
  }

  /** `get_or_init_config`: the defaults, overridden by the theme file when
      it could be read.  `contents` is None when the configuration directory
      cannot be located or the file does not exist or cannot be read. */
  method GetOrInitConfig(contents: Option<string>) returns (colors: Colors)
    ensures fresh(colors)
    ensures colors.Snapshot() == match contents
      case None => DEFAULT_PALETTE
      case Some(text) => ApplyLines(DEFAULT_PALETTE, Lines(text))
  {
    colors := new Colors();
    if contents.Some? {
      colors.ApplyConfig(contents.value);
    }
  }
}
