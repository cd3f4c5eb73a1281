/**
 * Preparation of the card catalog and of the user's collection
 * (`load_and_preprocess_data` and `load_collection_data`).
 *
 * The catalog file maps each card name to its details. The details are
 * flattened into one record per card, the records become a table (pandas'
 * `json_normalize`, which is not modelled: the table is an input here), the
 * table is cut down to the Commander-legal cards, its core columns are picked
 * and renamed, the colour identity is turned into a string, and missing core
 * columns are added back with default values.
 */
module DataLoader {
  import opened Wrappers
  import opened Strings
  import opened Json

  /** One card as a dict, or one row of a table: field name to value. A field
      the row lacks reads as pandas' NaN. */
  type Record = map<string, JsonValue>

  /** An exception that stops loading. */
  datatype LoadError =
    | KeyError(column: string)      // a column read that the table lacks
    | TypeError                     // `"".join` on a list holding a non-string
    | LengthMismatch(column: string) // a list assigned to a column of a different length

  // ---------------------------------------------------------------------------
  // Flattening the catalog (data_loader.py lines 47-54)
  // ---------------------------------------------------------------------------

  /** The value an entry's details stand for: the first element of a non-empty
      list, and otherwise the details themselves; an empty list stays a list, so
      it yields no record. */
  function ChosenDetails(details: JsonValue): (r: JsonValue)
    ensures !details.JArray? ==> r == details
    ensures details.JArray? && details.elements != [] ==> r == details.elements[0]
    ensures details.JArray? && details.elements == [] ==> r == details && !r.JObject?
  {
    if details.JArray? && details.elements != [] then details.elements[0] else details
  }

  /** The entry yields a record: its chosen details are a dict. */
  predicate Produces(entry: (string, JsonValue)) {
    ChosenDetails(entry.1).JObject?
  }

  /** The record an entry yields: its dict, with `card_name` set to its key. */
  function CardRecord(entry: (string, JsonValue)): Record
    requires Produces(entry)
  {
    AsDict(ChosenDetails(entry.1).members)["card_name" := JString(entry.0)]
  }

  /** `card_list` after the loop has seen `entries`. */
  function Flattened(entries: seq<(string, JsonValue)>): seq<Record> {
    if entries == [] then []
    else
      var last := entries[|entries| - 1];
      Flattened(entries[..|entries| - 1]) + (if Produces(last) then [CardRecord(last)] else [])
  }

  /** The positions of the entries that yield a record, in order. */
  function Origins(entries: seq<(string, JsonValue)>): seq<nat> {
    if entries == [] then []
    else
      Origins(entries[..|entries| - 1]) + (if Produces(entries[|entries| - 1]) then [|entries| - 1] else [])
  }

  /** The positions are increasing, each yields a record, and every position
      that yields one is among them. */
  lemma {:induction false} OriginsExact(entries: seq<(string, JsonValue)>)
    ensures var o := Origins(entries);
      && |o| <= |entries|
      && (forall k :: 0 <= k < |o| ==> o[k] < |entries| && Produces(entries[o[k]]))
      && (forall k, l :: 0 <= k < l < |o| ==> o[k] < o[l])
      && (forall i :: 0 <= i < |entries| && Produces(entries[i]) ==> i in o)
  {
    if entries != [] {
      var n := |entries| - 1;
      var init := entries[..n];
      OriginsExact(init);
      assert forall i :: 0 <= i < n ==> init[i] == entries[i];
      var o, oi := Origins(entries), Origins(init);
      if Produces(entries[n]) {
        assert o == oi + [n];
      } else {
        assert o == oi;
      }
      assert forall k :: 0 <= k < |oi| ==> o[k] == oi[k];
    }
  }

  /** The `k`-th record is the record of the `k`-th producing entry. */
  lemma {:induction false} FlattenedAtOrigins(entries: seq<(string, JsonValue)>)
    ensures var o := Origins(entries);
      && |Flattened(entries)| == |o|
      && forall k :: 0 <= k < |o| ==>
           o[k] < |entries| && Produces(entries[o[k]]) && Flattened(entries)[k] == CardRecord(entries[o[k]])
  {
    if entries != [] {
      var n := |entries| - 1;
      var init := entries[..n];
      FlattenedAtOrigins(init);
      assert forall i :: 0 <= i < n ==> init[i] == entries[i];
      var o, oi := Origins(entries), Origins(init);
      var f, fi := Flattened(entries), Flattened(init);
      if Produces(entries[n]) {
        assert o == oi + [n] && f == fi + [CardRecord(entries[n])];
        assert o[|oi|] == n && f[|fi|] == CardRecord(entries[n]);
      } else {
        assert o == oi && f == fi;
      }
      assert forall k :: 0 <= k < |oi| ==> o[k] == oi[k] && f[k] == fi[k];
    }
  }

  /** Flattening keeps exactly the entries whose chosen details are a dict, at
      most one record each and in their order, and each record carries its own
      entry's key as `card_name`. */
  lemma {:induction false} FlattenedCharacterized(entries: seq<(string, JsonValue)>)
    ensures var o := Origins(entries);
      && |Flattened(entries)| == |o| <= |entries|
      && (forall k :: 0 <= k < |o| ==> o[k] < |entries| && Produces(entries[o[k]]))
      && (forall k, l :: 0 <= k < l < |o| ==> o[k] < o[l])
      && (forall i :: 0 <= i < |entries| && Produces(entries[i]) ==> i in o)
      && (forall k :: 0 <= k < |o| ==>
            Flattened(entries)[k] == CardRecord(entries[o[k]])
            && Flattened(entries)[k]["card_name"] == JString(entries[o[k]].0))
  {
    OriginsExact(entries);
    FlattenedAtOrigins(entries);
  }

  /** The loop at lines 47-54. Each chosen dict is the one `card_list` receives;
      its update in place is not observable afterwards, since the parsed file is
      dropped. */
  method FlattenCards(entries: seq<(string, JsonValue)>) returns (cards: seq<Record>)
    ensures cards == Flattened(entries)
  {
    cards := [];
    for i := 0 to |entries|
      invariant cards == Flattened(entries[..i])
    {
      assert entries[..i + 1][..i] == entries[..i];
      var (name, details) := entries[i];
      var chosen := ChosenDetails(details);
      if !chosen.JObject? {
        continue;
      }
      var card := AsDict(chosen.members);
      card := card["card_name" := JString(name)];
      cards := cards + [card];
    }
    assert entries[..|entries|] == entries;
  }

  // ---------------------------------------------------------------------------
  // Tables
  // ---------------------------------------------------------------------------

  /** A DataFrame: its column labels in order and its rows. */
  datatype Table = Table(columns: seq<string>, rows: seq<Record>)

  /** `t[name] = value` with a scalar `value`: every row gets `value`, and the
      column is appended when it is new. */
  function Broadcast(t: Table, name: string, value: JsonValue): (r: Table)
    ensures r.columns == if name in t.columns then t.columns else t.columns + [name]
    ensures |r.rows| == |t.rows|
    ensures forall k :: 0 <= k < |r.rows| ==> r.rows[k] == t.rows[k][name := value]
  {
    Table(if name in t.columns then t.columns else t.columns + [name],
          seq(|t.rows|, k requires 0 <= k < |t.rows| => t.rows[k][name := value]))
  }

  // ---------------------------------------------------------------------------
  // Commander legality (lines 63-67)
  // ---------------------------------------------------------------------------

  const LegalityColumn := "legalities.commander"

  /** `row['legalities.commander'] == 'Legal'`; NaN compares unequal. */
  predicate IsCommanderLegal(row: Record) {
    LegalityColumn in row && row[LegalityColumn] == JString("Legal")
  }

  /** The boolean mask: the legal rows, in order, each as often as in `rows`. */
  function KeepLegal(rows: seq<Record>): (r: seq<Record>)
    ensures |r| <= |rows| && IsSubsequence(r, rows)
    ensures forall x :: multiset(r)[x] == if IsCommanderLegal(x) then multiset(rows)[x] else 0
  {
    if rows == [] then []
    else
      assert rows == [rows[0]] + rows[1..];
      var rest := KeepLegal(rows[1..]);
      if IsCommanderLegal(rows[0]) then
        assert ([rows[0]] + rest)[1..] == rest;
        [rows[0]] + rest
      else
        assert rest != [] ==> rest[0] in multiset(rest) && rest[0] != rows[0];
        rest
  }

  /** The legality filter. When the column is absent every row is kept;
      otherwise exactly the rows whose value is `'Legal'` are. The `dropna` that
      follows the mask removes nothing, since every kept row has a value. */
  function CommanderLegal(t: Table): (r: Table)
    ensures r.columns == t.columns
    ensures LegalityColumn !in t.columns ==> r == t
    ensures LegalityColumn in t.columns ==> IsSubsequence(r.rows, t.rows)
    ensures LegalityColumn in t.columns ==>
      forall x :: multiset(r.rows)[x] == if IsCommanderLegal(x) then multiset(t.rows)[x] else 0
  {
    if LegalityColumn !in t.columns then t else Table(t.columns, KeepLegal(t.rows))
  }

  // ---------------------------------------------------------------------------
  // Column selection and renaming (lines 73-87)
  // ---------------------------------------------------------------------------

  /** `final_columns`, in declaration order: source column, new name. */
  const FinalColumns: seq<(string, string)> := [
    ("card_name", "Name"),
    ("colorIdentity", "ColorIdentity"),
    ("manaValue", "ManaValue"),
    ("type", "Type"),
    ("text", "Text"),
    ("keywords", "Keywords"),
    ("power", "Power"),
    ("toughness", "Toughness"),
    (LegalityColumn, "CommanderLegality")
  ]

  /** `final_columns.values()`, in order. */
  const CoreColumns: seq<string> :=
    ["Name", "ColorIdentity", "ManaValue", "Type", "Text", "Keywords", "Power", "Toughness", "CommanderLegality"]

  lemma CoreColumnsAreNewNames()
    ensures |CoreColumns| == |FinalColumns|
    ensures forall i :: 0 <= i < |FinalColumns| ==> FinalColumns[i].1 == CoreColumns[i]
    ensures forall i, j :: 0 <= i < j < |FinalColumns| ==>
      FinalColumns[i].0 != FinalColumns[j].0 && FinalColumns[i].1 != FinalColumns[j].1
  {
  }

  /** `a` can be obtained from `b` by deleting elements. */
  predicate IsSubsequence<T(==)>(a: seq<T>, b: seq<T>)
    decreases |b|
  {
    a == [] || (b != [] && (if a[0] == b[0] then IsSubsequence(a[1..], b[1..]) else IsSubsequence(a, b[1..])))
  }

  /** The comprehension of line 86, with each kept column's new name: the pairs
      whose source column the table has, in declaration order. */
  function KeptPairs(pairs: seq<(string, string)>, columns: seq<string>): (r: seq<(string, string)>)
    ensures IsSubsequence(r, pairs)
    ensures forall p :: p in r <==> p in pairs && p.0 in columns
  {
    if pairs == [] then []
    else
      var rest := KeptPairs(pairs[1..], columns);
      assert forall p :: p in pairs <==> p == pairs[0] || p in pairs[1..];
      if pairs[0].0 in columns then [pairs[0]] + rest
      else
        assert rest != [] ==> rest[0] != pairs[0];
        rest
  }

  /** The new name of every kept pair, in order. */
  function NewNames(kept: seq<(string, string)>): (names: seq<string>)
    ensures |names| == |kept|
    ensures forall k :: 0 <= k < |kept| ==> names[k] == kept[k].1
  {
    seq(|kept|, k requires 0 <= k < |kept| => kept[k].1)
  }

  /** No two pairs share a new name. */
  predicate DistinctNewNames(pairs: seq<(string, string)>) {
    forall a, b :: 0 <= a < b < |pairs| ==> pairs[a].1 != pairs[b].1
  }

  /** A row cut down to `pairs` and renamed: each pair whose source the table
      and the row have, under its new name. */
  function ProjectWith(pairs: seq<(string, string)>, row: Record, columns: seq<string>): (r: Record)
    requires DistinctNewNames(pairs)
    ensures forall i :: 0 <= i < |pairs| ==>
      && (pairs[i].1 in r <==> pairs[i].0 in columns && pairs[i].0 in row)
      && (pairs[i].1 in r ==> r[pairs[i].1] == row[pairs[i].0])
    ensures forall n :: n in r ==> exists i :: 0 <= i < |pairs| && pairs[i].1 == n
  {
    map i | 0 <= i < |pairs| && pairs[i].0 in columns && pairs[i].0 in row :: pairs[i].1 := row[pairs[i].0]
  }

  /** One row of `df[cols_to_keep].rename(...)`, for a table whose labels are
      `columns`: each core column whose source the table has, holding the row's
      value of that source; NaN stays NaN. */
  function Project(row: Record, columns: seq<string>): (r: Record)
    ensures forall i :: 0 <= i < |FinalColumns| ==>
      var (col, name) := FinalColumns[i];
      && (name in r <==> col in columns && col in row)
      && (name in r ==> r[name] == row[col])
    ensures forall n :: n in r ==> n in CoreColumns
  {
    CoreColumnsAreNewNames();
    ProjectWith(FinalColumns, row, columns)
  }

  /** When no two pairs share a new name, a pair's new name is among the kept
      names exactly when the table has the pair's source column. */
  lemma {:induction false} NewNameKept(pairs: seq<(string, string)>, columns: seq<string>, i: int)
    requires 0 <= i < |pairs| && DistinctNewNames(pairs)
    ensures pairs[i].1 in NewNames(KeptPairs(pairs, columns)) <==> pairs[i].0 in columns
  {
    var kept := KeptPairs(pairs, columns);
    var names := NewNames(kept);
    if pairs[i].0 in columns {
      assert pairs[i] in kept;
      var m :| 0 <= m < |kept| && kept[m] == pairs[i];
      assert names[m] == pairs[i].1;
    }
    if pairs[i].1 in names {
      var m :| 0 <= m < |names| && names[m] == pairs[i].1;
      assert kept[m] in kept;
      assert kept[m] in pairs;
      var a :| 0 <= a < |pairs| && pairs[a] == kept[m];
      assert pairs[a].1 == pairs[i].1;
      assert a == i;
    }
  }

  /** Lines 86-87: the table with only the core columns it has, in declaration
      order, each under its new name, and every row cut down to them. */
  function SelectAndRename(t: Table): (r: Table)
    ensures var kept := KeptPairs(FinalColumns, t.columns);
      && IsSubsequence(kept, FinalColumns)
      && r.columns == NewNames(kept)
      && |r.rows| == |t.rows|
    ensures forall i :: 0 <= i < |FinalColumns| ==> (FinalColumns[i].1 in r.columns <==> FinalColumns[i].0 in t.columns)
    ensures forall k, i :: 0 <= k < |t.rows| && 0 <= i < |FinalColumns| ==>
      var (col, name) := FinalColumns[i];
      && (name in r.rows[k] <==> col in t.columns && col in t.rows[k])
      && (name in r.rows[k] ==> r.rows[k][name] == t.rows[k][col])
    ensures forall k :: 0 <= k < |t.rows| ==> forall n :: n in r.rows[k] ==> n in CoreColumns
  {
    var kept := KeptPairs(FinalColumns, t.columns);
    CoreColumnsAreNewNames();
    forall i | 0 <= i < |FinalColumns| ensures FinalColumns[i].1 in NewNames(kept) <==> FinalColumns[i].0 in t.columns {
      NewNameKept(FinalColumns, t.columns, i);
    }
    Table(NewNames(kept), seq(|t.rows|, k requires 0 <= k < |t.rows| => Project(t.rows[k], t.columns)))
  }

  // ---------------------------------------------------------------------------
  // Colour identity as a string (lines 92-94)
  // ---------------------------------------------------------------------------

  /** A non-empty list: the case in which the lambda joins. */
  predicate IsNonEmptyList(cell: Option<JsonValue>) {
    cell.Some? && cell.value.JArray? && cell.value.elements != []
  }

  predicate AllStrings(xs: seq<JsonValue>) {
    forall i :: 0 <= i < |xs| ==> xs[i].JString?
  }

  /** The strings of a list of strings. */
  function Texts(xs: seq<JsonValue>): (r: seq<string>)
    requires AllStrings(xs)
    ensures |r| == |xs| && forall i :: 0 <= i < |xs| ==> r[i] == xs[i].s
  {
    seq(|xs|, i requires 0 <= i < |xs| => xs[i].s)
  }

  /** The lambda of lines 92-94 on one cell (`None` is NaN): a non-empty list
      becomes the concatenation of its elements in ascending order, anything else
      becomes `'C'`. `"".join` raises when an element is not a string (so does
      `sorted` on mixed types, first). */
  function ColorIdentityText(cell: Option<JsonValue>): (r: Result<string, LoadError>)
    ensures r.Failure? <==> IsNonEmptyList(cell) && !AllStrings(cell.value.elements)
    ensures r.Ok? && !IsNonEmptyList(cell) ==> r.value == "C"
  {
    if !IsNonEmptyList(cell) then Ok("C")
    else if !AllStrings(cell.value.elements) then Failure(TypeError)
    else Ok(Join("", Sort(Texts(cell.value.elements))))
  }

  /** For a list of strings the text is the concatenation of the one ascending
      arrangement of its elements, and it is empty only when every element is
      the empty string (so `'C'` is not the only way to avoid an empty result,
      but a list of colour letters never gives one). */
  lemma ColorIdentityTextOfList(xs: seq<JsonValue>)
    requires xs != [] && AllStrings(xs)
    ensures var r := ColorIdentityText(Some(JArray(xs)));
      && r.Ok?
      && (forall s :: Sorted(s) && multiset(s) == multiset(Texts(xs)) ==> r.value == Join("", s))
      && (r.value == "" <==> forall i :: 0 <= i < |xs| ==> xs[i] == JString(""))
  {
    var texts := Texts(xs);
    var sorted := Sort(texts);
    forall s | Sorted(s) && multiset(s) == multiset(texts) ensures s == sorted {
      SortedPermutationUnique(s, sorted);
    }
    if forall i :: 0 <= i < |sorted| ==> sorted[i] == [] {
      forall i | 0 <= i < |xs| ensures xs[i] == JString("") {
        assert texts[i] in multiset(sorted);
      }
    }
    if forall i :: 0 <= i < |xs| ==> xs[i] == JString("") {
      forall i | 0 <= i < |sorted| ensures sorted[i] == [] {
        assert sorted[i] in multiset(texts);
      }
    }
  }

  /** The colour identity cell of a row. */
  function ColorCell(row: Record): Option<JsonValue> {
    if "ColorIdentity" in row then Some(row["ColorIdentity"]) else None
  }

  /** `.apply` over every row, stopping at the first row that raises. */
  function NormalizeRows(rows: seq<Record>): (r: Result<seq<Record>, LoadError>)
    ensures r.Ok? <==> forall k :: 0 <= k < |rows| ==> ColorIdentityText(ColorCell(rows[k])).Ok?
    ensures r.Ok? ==> |r.value| == |rows| && forall k :: 0 <= k < |rows| ==>
      r.value[k] == rows[k]["ColorIdentity" := JString(ColorIdentityText(ColorCell(rows[k])).value)]
  {
    if rows == [] then Ok([])
    else
      assert forall k :: 1 <= k < |rows| ==> rows[k] == rows[1..][k - 1];
      match ColorIdentityText(ColorCell(rows[0]))
      case Failure(e) => Failure(e)
      case Ok(text) =>
        match NormalizeRows(rows[1..])
        case Failure(e) => Failure(e)
        case Ok(rest) => Ok([rows[0]["ColorIdentity" := JString(text)]] + rest)
  }

  /** Lines 92-94: reading the column raises `KeyError` when the table lacks it. */
  function NormalizeColors(t: Table): (r: Result<Table, LoadError>)
    ensures "ColorIdentity" !in t.columns ==> r == Failure(KeyError("ColorIdentity"))
    ensures "ColorIdentity" in t.columns ==> (r.Ok? <==> NormalizeRows(t.rows).Ok?)
    ensures r.Ok? ==> r.value == Table(t.columns, NormalizeRows(t.rows).value)
  {
    if "ColorIdentity" !in t.columns then Failure(KeyError("ColorIdentity"))
    else
      match NormalizeRows(t.rows)
      case Failure(e) => Failure(e)
      case Ok(rows) => Ok(Table(t.columns, rows))
  }

  // ---------------------------------------------------------------------------
  // Default values for missing core columns (lines 97-100)
  // ---------------------------------------------------------------------------

  /** `[] if new_name == 'Keywords' else ''`. */
  function DefaultValue(name: string): (v: JsonValue)
    ensures v.JArray? <==> name == "Keywords"
    ensures v.JArray? ==> v.elements == []
    ensures !v.JArray? ==> v == JString("")
  {
    if name == "Keywords" then JArray([]) else JString("")
  }

  /** One pass of the loop, with the default given to every row. */
  function AddIfMissing(t: Table, name: string): Table {
    if name in t.columns then t else Broadcast(t, name, DefaultValue(name))
  }

  /** The loop run over `names`: every name becomes a label; columns the table
      had keep their place and their values; the missing names are appended once
      each, in the order they first appear in `names`; a column that was missing
      holds its default in every row; nothing else is added. */
  function AddDefaults(t: Table, names: seq<string>): (r: Table)
    ensures |t.columns| <= |r.columns| && r.columns[..|t.columns|] == t.columns
    ensures forall c :: c in r.columns <==> c in t.columns || c in names
    ensures |r.rows| == |t.rows|
    ensures forall k, c :: 0 <= k < |t.rows| && c in t.columns ==>
      (c in r.rows[k] <==> c in t.rows[k]) && (c in t.rows[k] ==> r.rows[k][c] == t.rows[k][c])
    ensures forall k, c :: 0 <= k < |t.rows| && c in names && c !in t.columns ==>
      c in r.rows[k] && r.rows[k][c] == DefaultValue(c)
    ensures forall k, c :: 0 <= k < |t.rows| && c in r.rows[k] ==> c in t.rows[k] || c in names
  {
    if names == [] then t
    else
      var init := names[..|names| - 1];
      var last := names[|names| - 1];
      assert forall c :: c in names <==> c in init || c == last;
      AddIfMissing(AddDefaults(t, init), last)
  }

  /** The labels of `cols` after its prefix `base` are names missing from
      `base`, each once, in the order they first appear in `names`. */
  predicate AppendedInOrder(base: seq<string>, cols: seq<string>, names: seq<string>) {
    && (forall i :: |base| <= i < |cols| ==> cols[i] in names && cols[i] !in base)
    && (forall i, j :: |base| <= i < j < |cols| ==>
          cols[i] in names && cols[j] in names && FirstIndex(names, cols[i]) < FirstIndex(names, cols[j]))
  }

  /** The labels the loop appends are missing names, each once, in the order
      they first appear in `names`. */
  lemma {:induction false} AddedInOrder(t: Table, names: seq<string>)
    ensures AppendedInOrder(t.columns, AddDefaults(t, names).columns, names)
  {
    if names != [] {
      var n := |names| - 1;
      AddedInOrder(t, names[..n]);
      var prev := AddDefaults(t, names[..n]);
      assert AddDefaults(t, names) == AddIfMissing(prev, names[n]);
      AppendedStep(t.columns, prev.columns, names);
    }
  }

  /** One pass of the loop keeps the appended labels in order. */
  lemma AppendedStep(base: seq<string>, prev: seq<string>, names: seq<string>)
    requires names != []
    requires forall c :: c in prev <==> c in base || c in names[..|names| - 1]
    requires AppendedInOrder(base, prev, names[..|names| - 1])
    ensures var last := names[|names| - 1];
      AppendedInOrder(base, if last in prev then prev else prev + [last], names)
  {
    var n := |names| - 1;
    var init := names[..n];
    var last := names[n];
    assert forall c :: c in names <==> c in init || c == last;
    forall c | c in init ensures FirstIndex(names, c) == FirstIndex(init, c) {
      FirstIndexInPrefix(names, n, c);
    }
    if last !in prev {
      assert last !in init && last !in base;
      assert FirstIndex(names, last) == n;
      var r := prev + [last];
      forall i | |base| <= i < |prev| ensures r[i] in init && FirstIndex(names, r[i]) < n {
        assert r[i] == prev[i];
      }
    }
  }

  /** Lines 97-100 as intended: every core column is present afterwards. */
  function WithDefaults(t: Table): (r: Table)
    ensures forall c :: c in CoreColumns ==> c in r.columns
  {
    AddDefaults(t, CoreColumns)
  }

  /** Once every core column is present the loop changes nothing, so it is
      idempotent. */
  lemma WithDefaultsIdempotent(t: Table)
    ensures WithDefaults(WithDefaults(t)) == WithDefaults(t)
  {
    AllPresentUnchanged(WithDefaults(t), CoreColumns);
  }

  lemma {:induction false} AllPresentUnchanged(t: Table, names: seq<string>)
    requires forall c :: c in names ==> c in t.columns
    ensures AddDefaults(t, names) == t
  {
    if names != [] {
      AllPresentUnchanged(t, names[..|names| - 1]);
    }
  }

  /** Lines 97-100 as written. `final_df['Keywords'] = []` assigns a list, not a
      scalar, and pandas raises a length mismatch unless the table has no rows. */
  function AddIfMissingAsWritten(t: Table, name: string): Result<Table, LoadError> {
    if name in t.columns then Ok(t)
    else if name == "Keywords" && |t.rows| != 0 then Failure(LengthMismatch(name))
    else Ok(Broadcast(t, name, DefaultValue(name)))
  }

  /** The loop as written: it raises exactly when `Keywords` has to be added to a
      table with rows, and otherwise agrees with the intended loop. */
  function AddDefaultsAsWritten(t: Table, names: seq<string>): (r: Result<Table, LoadError>)
    ensures r.Failure? <==> "Keywords" in names && "Keywords" !in t.columns && |t.rows| != 0
    ensures r.Ok? ==> r.value == AddDefaults(t, names)
  {
    if names == [] then Ok(t)
    else
      var init := names[..|names| - 1];
      var last := names[|names| - 1];
      assert forall c :: c in names <==> c in init || c == last;
      match AddDefaultsAsWritten(t, init)
      case Failure(e) => Failure(e)
      case Ok(t') => AddIfMissingAsWritten(t', last)
  }

  /** A catalog with cards but no `keywords` field makes the loop as written
      raise, where the intended loop gives every card an empty keyword list. */
  lemma KeywordsMissingRaises(t: Table)
    requires "Keywords" !in t.columns && |t.rows| != 0
    ensures AddDefaultsAsWritten(t, CoreColumns).Failure?
    ensures forall k :: 0 <= k < |t.rows| ==> WithDefaults(t).rows[k]["Keywords"] == JArray([])
  {
    assert "Keywords" in CoreColumns by { assert CoreColumns[5] == "Keywords"; }
    var r := AddDefaults(t, CoreColumns);
    forall k | 0 <= k < |t.rows| ensures r.rows[k]["Keywords"] == JArray([]) {
      assert DefaultValue("Keywords") == JArray([]);
    }
  }

  /** One card, say Krenko, without a `keywords` field is enough. */
  lemma KeywordsDefaultRaises(name: string)
    ensures var t := Table(["Name", "ColorIdentity"], [map["Name" := JString(name), "ColorIdentity" := JString("R")]]);
      && AddDefaultsAsWritten(t, CoreColumns).Failure?
      && WithDefaults(t).rows[0]["Keywords"] == JArray([])
  {
    var t := Table(["Name", "ColorIdentity"], [map["Name" := JString(name), "ColorIdentity" := JString("R")]]);
    KeywordsMissingRaises(t);
  }

  /** One more pass of the loop, for the next name. */
  lemma AddDefaultsStep(t: Table, names: seq<string>, i: int)
    requires 0 <= i < |names|
    ensures AddDefaults(t, names[..i + 1]) == AddIfMissing(AddDefaults(t, names[..i]), names[i])
  {
    assert names[..i + 1][..i] == names[..i];
  }

  /** The table `final_df`, changed in place by the loop of lines 97-100. */
  class Frame {
    var columns: seq<string>
    var rows: seq<Record>

    constructor (t: Table)
      ensures Snapshot() == t
    {
      columns := t.columns;
      rows := t.rows;
    }

    function Snapshot(): Table
      reads this
    {
      Table(columns, rows)
    }

    /** `final_df[name] = value` with a scalar `value`. */
    method SetColumn(name: string, value: JsonValue)
      modifies this
      ensures Snapshot() == Broadcast(old(Snapshot()), name, value)
    {
      if name !in columns {
        columns := columns + [name];
      }
      var before := rows;
      rows := seq(|before|, k requires 0 <= k < |before| => before[k][name := value]);
    }

    /** The loop of lines 97-100, with `Keywords` given an empty list in every
        row rather than assigned `[]` as a whole column. */
    method FillMissingColumns()
      modifies this
      ensures Snapshot() == WithDefaults(old(Snapshot()))
    {
      for i := 0 to |CoreColumns|
        invariant Snapshot() == AddDefaults(old(Snapshot()), CoreColumns[..i])
      {
        var name := CoreColumns[i];
        AddDefaultsStep(old(Snapshot()), CoreColumns, i);
        if name !in columns {
          SetColumn(name, DefaultValue(name));
        }
      }
      assert CoreColumns[..|CoreColumns|] == CoreColumns;
    }
  }

  // ---------------------------------------------------------------------------
  // The whole preprocessing step (lines 58-106, from the normalised table on)
  // ---------------------------------------------------------------------------

  /** Filter, select and rename, colour identity, defaults, with the default
      loop as intended: the result has every core column and one row per legal
      card. */
  function Preprocess(df: Table): (r: Result<Table, LoadError>)
    ensures r.Ok? ==> forall c :: c in CoreColumns ==> c in r.value.columns
    ensures r.Ok? ==> |r.value.rows| == |CommanderLegal(df).rows|
  {
    match NormalizeColors(SelectAndRename(CommanderLegal(df)))
    case Failure(e) => Failure(e)
    case Ok(t) => Ok(WithDefaults(t))
  }

  /** Lines 63-100 as written, with the default loop of `AddDefaultsAsWritten`.
      A successful result has every core column and one row per legal card. */
  function PreprocessAsWritten(df: Table): (r: Result<Table, LoadError>)
    ensures r.Ok? ==> forall c :: c in CoreColumns ==> c in r.value.columns
    ensures r.Ok? ==> |r.value.rows| == |CommanderLegal(df).rows|
  {
    match NormalizeColors(SelectAndRename(CommanderLegal(df)))
    case Failure(e) => Failure(e)
    case Ok(t) => AddDefaultsAsWritten(t, CoreColumns)
  }

  /** The pipeline as written raises where the intended one does, and also on a
      non-empty legal table without `keywords`; when it succeeds the two agree. */
  lemma PreprocessAsWrittenRaises(df: Table)
    ensures PreprocessAsWritten(df).Failure? <==>
      Preprocess(df).Failure? || ("keywords" !in df.columns && |CommanderLegal(df).rows| != 0)
    ensures PreprocessAsWritten(df).Ok? ==> PreprocessAsWritten(df) == Preprocess(df)
  {
    var legal := CommanderLegal(df);
    var selected := SelectAndRename(legal);
    var colored := NormalizeColors(selected);
    if colored.Ok? {
      SelectedKeywordsColumn(legal);
      DefaultsAsWrittenCore(colored.value);
    }
  }

  /** The renamed table has `Keywords` exactly when the original has `keywords`. */
  lemma SelectedKeywordsColumn(t: Table)
    ensures "Keywords" in SelectAndRename(t).columns <==> "keywords" in t.columns
  {
    assert FinalColumns[5] == ("keywords", "Keywords");
  }

  /** Over the core columns the loop as written raises exactly when `Keywords`
      is missing from a table with rows, and otherwise gives the intended table. */
  lemma DefaultsAsWrittenCore(t: Table)
    ensures AddDefaultsAsWritten(t, CoreColumns).Failure? <==> "Keywords" !in t.columns && |t.rows| != 0
    ensures AddDefaultsAsWritten(t, CoreColumns).Ok? ==> AddDefaultsAsWritten(t, CoreColumns) == Ok(WithDefaults(t))
  {
    assert CoreColumns[5] == "Keywords";
  }

  /** The pipeline as written raises exactly when the catalog has no
      `colorIdentity` column, a legal card's colour identity is a list holding a
      non-string, or there are legal cards and no `keywords` column. */
  lemma PreprocessAsWrittenFailsExactly(df: Table)
    ensures var legal := CommanderLegal(df).rows;
      PreprocessAsWritten(df).Failure? <==>
        || "colorIdentity" !in df.columns
        || (exists k :: 0 <= k < |legal| && BadColorIdentity(legal[k]))
        || ("keywords" !in df.columns && |legal| != 0)
  {
    PreprocessAsWrittenRaises(df);
    PreprocessFailsExactly(df);
  }

  /** `load_and_preprocess_data` once the file is read and normalised. */
  method LoadAndPreprocess(df: Table) returns (r: Result<Table, LoadError>)
    ensures r == Preprocess(df)
  {
    var legal := CommanderLegal(df);
    var finalDf := SelectAndRename(legal);
    var colored := NormalizeColors(finalDf);
    if colored.Failure? {
      return Failure(colored.error);
    }
    var frame := new Frame(colored.value);
    frame.FillMissingColumns();
    r := Ok(frame.Snapshot());
  }

  /** The renamed colour identity cell of a row is its `colorIdentity` cell. */
  lemma SelectedColorCell(t: Table, k: int)
    requires "colorIdentity" in t.columns && 0 <= k < |t.rows|
    ensures ColorCell(SelectAndRename(t).rows[k]) ==
      if "colorIdentity" in t.rows[k] then Some(t.rows[k]["colorIdentity"]) else None
  {
    assert FinalColumns[1] == ("colorIdentity", "ColorIdentity");
  }

  /** A legal row's renamed legality cell says `'Legal'`. */
  lemma SelectedLegality(t: Table, k: int)
    requires LegalityColumn in t.columns && 0 <= k < |t.rows|
    requires IsCommanderLegal(t.rows[k])
    ensures "CommanderLegality" in SelectAndRename(t).rows[k]
    ensures SelectAndRename(t).rows[k]["CommanderLegality"] == JString("Legal")
  {
    assert FinalColumns[8] == (LegalityColumn, "CommanderLegality");
  }

  /** The raw colour identity of a row is a non-empty list with a non-string. */
  predicate BadColorIdentity(row: Record) {
    "colorIdentity" in row && IsNonEmptyList(Some(row["colorIdentity"]))
    && !AllStrings(row["colorIdentity"].elements)
  }

  /** The renamed table has `ColorIdentity` exactly when the original has
      `colorIdentity`. */
  lemma SelectedColorColumn(t: Table)
    ensures "ColorIdentity" in SelectAndRename(t).columns <==> "colorIdentity" in t.columns
  {
    assert FinalColumns[1] == ("colorIdentity", "ColorIdentity");
  }

  /** Preprocessing raises where colour normalisation of the renamed table does. */
  lemma PreprocessFailsWhereColorsFail(df: Table)
    ensures Preprocess(df).Failure? <==> NormalizeColors(SelectAndRename(CommanderLegal(df))).Failure?
  {
  }

  /** Normalising rows raises exactly when some row's cell is one the lambda
      raises on, here described by the row of another table it came from. */
  lemma {:induction false} RowsFailExactly(rows: seq<Record>, orig: seq<Record>)
    requires |rows| == |orig|
    requires forall k :: 0 <= k < |rows| ==>
      (ColorIdentityText(ColorCell(rows[k])).Failure? <==> BadColorIdentity(orig[k]))
    ensures NormalizeRows(rows).Failure? <==> exists k :: 0 <= k < |orig| && BadColorIdentity(orig[k])
  {
    if NormalizeRows(rows).Failure? {
      var k :| 0 <= k < |rows| && !ColorIdentityText(ColorCell(rows[k])).Ok?;
      assert BadColorIdentity(orig[k]);
    }
  }

  /** With the column present, normalisation raises exactly at a bad row. */
  lemma SelectedColorsFailExactly(t: Table)
    requires "colorIdentity" in t.columns
    ensures NormalizeColors(SelectAndRename(t)).Failure? <==>
      exists k :: 0 <= k < |t.rows| && BadColorIdentity(t.rows[k])
  {
    var selected := SelectAndRename(t);
    SelectedColorColumn(t);
    forall k | 0 <= k < |t.rows|
      ensures ColorIdentityText(ColorCell(selected.rows[k])).Failure? <==> BadColorIdentity(t.rows[k])
    {
      SelectedColorCell(t, k);
    }
    RowsFailExactly(selected.rows, t.rows);
  }

  /** Preprocessing raises exactly when the catalog has no `colorIdentity`
      column, or a legal card's colour identity is a list holding a non-string. */
  lemma PreprocessFailsExactly(df: Table)
    ensures var legal := CommanderLegal(df).rows;
      Preprocess(df).Failure? <==>
        || "colorIdentity" !in df.columns
        || exists k :: 0 <= k < |legal| && BadColorIdentity(legal[k])
  {
    var legal := CommanderLegal(df);
    PreprocessFailsWhereColorsFail(df);
    SelectedColorColumn(legal);
    if "colorIdentity" in df.columns {
      SelectedColorsFailExactly(legal);
    }
  }

  /** A successful preprocessing is the renamed, colour-normalised legal table
      with its defaults added. */
  lemma PreprocessValue(df: Table)
    requires Preprocess(df).Ok?
    ensures NormalizeColors(SelectAndRename(CommanderLegal(df))).Ok?
    ensures Preprocess(df).value == WithDefaults(NormalizeColors(SelectAndRename(CommanderLegal(df))).value)
  {
  }

  /** A column the table had keeps its cells through the default loop. */
  lemma DefaultsKeepColumn(t: Table, k: int, c: string)
    requires 0 <= k < |t.rows| && c in t.columns
    ensures |WithDefaults(t).rows| == |t.rows|
    ensures c in WithDefaults(t).rows[k] <==> c in t.rows[k]
    ensures c in t.rows[k] ==> WithDefaults(t).rows[k][c] == t.rows[k][c]
  {
  }

  /** The default loop adds core fields only. */
  lemma DefaultsAddCoreOnly(t: Table, k: int, c: string)
    requires 0 <= k < |t.rows| && c in WithDefaults(t).rows[k]
    ensures c in t.rows[k] || c in CoreColumns
  {
  }

  /** Every row of a successful preprocessing holds a string colour identity
      and core fields only. */
  lemma PreprocessRow(df: Table, k: int)
    requires Preprocess(df).Ok? && 0 <= k < |Preprocess(df).value.rows|
    ensures var row := Preprocess(df).value.rows[k];
      && "ColorIdentity" in row && row["ColorIdentity"].JString?
      && forall c :: c in row ==> c in CoreColumns
  {
    var selected := SelectAndRename(CommanderLegal(df));
    var colored := NormalizeColors(selected).value;
    PreprocessValue(df);
    assert "ColorIdentity" in colored.columns;
    assert colored.rows[k] == selected.rows[k]["ColorIdentity" := colored.rows[k]["ColorIdentity"]];
    DefaultsKeepColumn(colored, k, "ColorIdentity");
    forall c | c in Preprocess(df).value.rows[k] ensures c in CoreColumns {
      DefaultsAddCoreOnly(colored, k, c);
    }
  }

  /** Every row the filter keeps is legal, when the column is there. */
  lemma LegalRow(df: Table, k: int)
    requires LegalityColumn in df.columns && 0 <= k < |CommanderLegal(df).rows|
    ensures IsCommanderLegal(CommanderLegal(df).rows[k])
  {
    var rows := CommanderLegal(df).rows;
    assert rows[k] in multiset(rows);
  }

  /** Colour normalisation leaves every other cell alone. */
  lemma ColorsKeepOther(t: Table, k: int, c: string)
    requires NormalizeColors(t).Ok? && 0 <= k < |t.rows| && c != "ColorIdentity"
    ensures NormalizeColors(t).value.columns == t.columns
    ensures |NormalizeColors(t).value.rows| == |t.rows|
    ensures c in NormalizeColors(t).value.rows[k] <==> c in t.rows[k]
    ensures c in t.rows[k] ==> NormalizeColors(t).value.rows[k][c] == t.rows[k][c]
  {
  }

  /** When the catalog had the legality column, every preprocessed row says
      `'Legal'`. */
  lemma PreprocessRowLegal(df: Table, k: int)
    requires Preprocess(df).Ok? && 0 <= k < |Preprocess(df).value.rows|
    requires LegalityColumn in df.columns
    ensures var row := Preprocess(df).value.rows[k];
      "CommanderLegality" in row && row["CommanderLegality"] == JString("Legal")
  {
    var legal := CommanderLegal(df);
    var selected := SelectAndRename(legal);
    PreprocessValue(df);
    var colored := NormalizeColors(selected).value;
    ColorsKeepOther(selected, k, "CommanderLegality");
    LegalRow(df, k);
    SelectedLegality(legal, k);
    assert FinalColumns[8] == (LegalityColumn, "CommanderLegality");
    assert "CommanderLegality" in colored.columns;
    DefaultsKeepColumn(colored, k, "CommanderLegality");
  }

  // ---------------------------------------------------------------------------
  // The user's collection (lines 108-129)
  // ---------------------------------------------------------------------------

  /** A row of the collection file; an empty `Count` cell is `None` (NaN). */
  datatype CollectionRow = CollectionRow(name: string, count: Option<int>)

  /** The collection file: absent, unreadable (any exception while reading it or
      selecting from it), or its rows. */
  datatype CollectionFile = Missing | Unreadable | Parsed(rows: seq<CollectionRow>)

  /** `Count > 0`; NaN compares false. */
  predicate HasPositiveCount(row: CollectionRow) {
    row.count.Some? && row.count.value > 0
  }

  /** `df[df['Count'] > 0]['Name']`: the names of the rows with a positive
      count, in file order. */
  function PositiveNames(rows: seq<CollectionRow>): (r: seq<string>)
    ensures forall n :: n in r <==> exists i :: 0 <= i < |rows| && rows[i].name == n && HasPositiveCount(rows[i])
  {
    if rows == [] then []
    else
      assert forall i :: 1 <= i < |rows| ==> rows[i] == rows[1..][i - 1];
      (if HasPositiveCount(rows[0]) then [rows[0].name] else []) + PositiveNames(rows[1..])
  }

  /** The position of the first occurrence of `x`. */
  function FirstIndex<T(==)>(xs: seq<T>, x: T): (i: nat)
    requires x in xs
    ensures i < |xs| && xs[i] == x && forall j :: 0 <= j < i ==> xs[j] != x
  {
    if xs[0] == x then 0 else 1 + FirstIndex(xs[1..], x)
  }

  lemma {:induction false} FirstIndexInPrefix<T>(xs: seq<T>, n: nat, x: T)
    requires n <= |xs| && x in xs[..n]
    ensures FirstIndex(xs, x) == FirstIndex(xs[..n], x)
  {
    var i := FirstIndex(xs[..n], x);
    var j := FirstIndex(xs, x);
    assert xs[..n][i] == xs[i];
  }

  /** pandas' `unique()`: each value once, in order of first appearance. */
  function Unique(xs: seq<string>): (r: seq<string>)
    ensures forall x :: x in r <==> x in xs
    ensures forall i, j :: 0 <= i < j < |r| ==> r[i] != r[j]
    ensures forall i, j :: 0 <= i < j < |r| ==> FirstIndex(xs, r[i]) < FirstIndex(xs, r[j])
  {
    if xs == [] then []
    else
      var n := |xs| - 1;
      var init := xs[..n];
      var last := xs[n];
      var u := Unique(init);
      assert forall x :: x in xs <==> x in init || x == last;
      forall x | x in init ensures FirstIndex(xs, x) == FirstIndex(init, x) {
        FirstIndexInPrefix(xs, n, x);
      }
      if last in u then u
      else
        assert FirstIndex(xs, last) == n;
        u + [last]
  }

  /** The position of the first row with a positive count named `n`. */
  function FirstPositive(rows: seq<CollectionRow>, n: string): (i: nat)
    requires n in PositiveNames(rows)
    ensures i < |rows| && rows[i].name == n && HasPositiveCount(rows[i])
    ensures forall j :: 0 <= j < i ==> !(rows[j].name == n && HasPositiveCount(rows[j]))
  {
    if HasPositiveCount(rows[0]) && rows[0].name == n then 0 else 1 + FirstPositive(rows[1..], n)
  }

  /** The filtered `Name` column lists names in file order: a name that first
      appears earlier in it first has a positive row earlier in the file. */
  lemma {:induction false} PositiveNamesInFileOrder(rows: seq<CollectionRow>, a: string, b: string)
    requires a in PositiveNames(rows) && b in PositiveNames(rows)
    requires FirstIndex(PositiveNames(rows), a) < FirstIndex(PositiveNames(rows), b)
    ensures FirstPositive(rows, a) < FirstPositive(rows, b)
  {
    var p := PositiveNames(rows);
    var rest := PositiveNames(rows[1..]);
    if HasPositiveCount(rows[0]) {
      assert p == [rows[0].name] + rest;
      if a != rows[0].name {
        assert p[0] != a && p[0] != b;
        assert FirstIndex(p, a) == 1 + FirstIndex(rest, a);
        assert FirstIndex(p, b) == 1 + FirstIndex(rest, b);
        PositiveNamesInFileOrder(rows[1..], a, b);
      }
    } else {
      assert p == rest;
      PositiveNamesInFileOrder(rows[1..], a, b);
    }
  }

  /** `load_collection_data` lists the owned names in the order their first
      positive row comes in the file. */
  lemma CollectionInFileOrder(rows: seq<CollectionRow>)
    ensures var owned := LoadCollection(Parsed(rows));
      forall i, j :: 0 <= i < j < |owned| ==>
        owned[i] in PositiveNames(rows) && owned[j] in PositiveNames(rows) &&
        FirstPositive(rows, owned[i]) < FirstPositive(rows, owned[j])
  {
    var owned := LoadCollection(Parsed(rows));
    forall i, j | 0 <= i < j < |owned|
      ensures owned[i] in PositiveNames(rows) && owned[j] in PositiveNames(rows)
      ensures FirstPositive(rows, owned[i]) < FirstPositive(rows, owned[j])
    {
      PositiveNamesInFileOrder(rows, owned[i], owned[j]);
    }
  }

  /** `load_collection_data`: no file or any error gives no names; otherwise the
      distinct names of rows with a positive count, in order of first appearance. */
  function LoadCollection(file: CollectionFile): (owned: seq<string>)
    ensures !file.Parsed? ==> owned == []
    ensures file.Parsed? ==> forall n :: n in owned <==>
      exists i :: 0 <= i < |file.rows| && file.rows[i].name == n && HasPositiveCount(file.rows[i])
    ensures forall i, j :: 0 <= i < j < |owned| ==> owned[i] != owned[j]
    ensures file.Parsed? ==> forall n :: n in owned <==> n in PositiveNames(file.rows)
    ensures file.Parsed? ==> forall i, j :: 0 <= i < j < |owned| ==>
      FirstIndex(PositiveNames(file.rows), owned[i]) < FirstIndex(PositiveNames(file.rows), owned[j])
  {
    match file
    case Parsed(rows) => Unique(PositiveNames(rows))
    case _ => []
  }
}
