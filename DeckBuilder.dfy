/**
 * The commander step of the deck builder application: reading the commander's
 * name and finding its card in the preprocessed catalog.
 */
module DeckBuilder {
  import opened Wrappers
  import opened Strings
  import opened Json
  import opened DataLoader

  /** The commander used when the user enters nothing. */
  const InitialCommanderName := "Krenko, Mob Boss"

  /** `get_user_commander`, given the line the user typed. A blank line gives the
      initial commander; anything else gives the line without its surrounding
      whitespace. Either way the name is non-empty and trimmed. */
  function GetUserCommander(input: string): (name: string)
    ensures (forall k :: 0 <= k < |input| ==> IsSpace(input[k])) ==> name == InitialCommanderName
    ensures !(forall k :: 0 <= k < |input| ==> IsSpace(input[k])) ==> name == Strip(input)
    ensures name != "" && IsTrimmed(name)
  {
    var userInput := Strip(input);
    if userInput != "" then userInput else InitialCommanderName
  }

  /** `card_db['Name'] == commander_name` holds for the row; NaN and non-string
      cells compare unequal. */
  predicate NameIs(row: Record, name: string) {
    "Name" in row && row["Name"] == JString(name)
  }

  /** The position of the first row named `name`, or `|rows|`. */
  function FirstMatch(rows: seq<Record>, name: string): (i: nat)
    ensures i <= |rows|
    ensures i < |rows| ==> NameIs(rows[i], name)
    ensures forall j :: 0 <= j < i ==> !NameIs(rows[j], name)
  {
    if rows == [] then 0
    else if NameIs(rows[0], name) then 0
    else
      assert forall j :: 1 <= j < |rows| ==> rows[j] == rows[1..][j - 1];
      1 + FirstMatch(rows[1..], name)
  }

  /** The lookup of `select_commander`: the first row whose `Name` is the
      requested name, or `None` when there is none. Reading `card_db['Name']`
      needs the column. */
  function SelectCommander(db: Table, name: string): (r: Option<Record>)
    requires "Name" in db.columns
    ensures r.None? <==> forall k :: 0 <= k < |db.rows| ==> !NameIs(db.rows[k], name)
    ensures r.Some? ==> NameIs(r.value, name)
    ensures r.Some? ==>
      exists k :: 0 <= k < |db.rows| && db.rows[k] == r.value && (forall j :: 0 <= j < k ==> !NameIs(db.rows[j], name))
  {
    var i := FirstMatch(db.rows, name);
    if i == |db.rows| then None else Some(db.rows[i])
  }

  /** The `colors_str` of `select_commander` for the row's `ColorIdentity`
      (`None` when the row lacks it): the comma-joined colours of a non-empty
      list, and `'C (Colorless)'` for anything else. Joining raises on a
      non-string element. */
  function ColorsDisplay(colors: Option<JsonValue>): (r: Result<string, LoadError>)
    ensures r.Failure? <==> IsNonEmptyList(colors) && !AllStrings(colors.value.elements)
    ensures r.Ok? && !IsNonEmptyList(colors) ==> r.value == "C (Colorless)"
    ensures r.Ok? && IsNonEmptyList(colors) ==>
      var texts := Texts(colors.value.elements);
      |texts[0]| <= |r.value| && r.value[..|texts[0]|] == texts[0]
  {
    if !IsNonEmptyList(colors) then Ok("C (Colorless)")
    else if !AllStrings(colors.value.elements) then Failure(TypeError)
    else Ok(Join(",", Texts(colors.value.elements)))
  }

  /** `select_commander` as a whole: `None` when no row has the name; otherwise
      the first such row and the colour text printed for it, unless building
      that text raises. */
  function SelectCommanderWithColors(db: Table, name: string): (r: Result<Option<(Record, string)>, LoadError>)
    requires "Name" in db.columns
    ensures r == Ok(None) <==> SelectCommander(db, name).None?
    ensures r.Failure? <==>
      SelectCommander(db, name).Some? && ColorsDisplay(ColorCell(SelectCommander(db, name).value)).Failure?
    ensures r.Ok? && r.value.Some? ==>
      && SelectCommander(db, name).Some? && r.value.value.0 == SelectCommander(db, name).value
      && r.value.value.1 == ColorsDisplay(ColorCell(r.value.value.0)).value
  {
    match SelectCommander(db, name)
    case None => Ok(None)
    case Some(row) =>
      match ColorsDisplay(ColorCell(row))
      case Failure(e) => Failure(e)
      case Ok(colorsText) => Ok(Some((row, colorsText)))
  }

  /** On a preprocessed catalog the lookup can always run, and since the colour
      identity there is a string, a commander found is always displayed as
      `'C (Colorless)'`, whatever its colours, and `select_commander` never
      raises there; the preprocessing as written,
      when it succeeds, gives the same catalog. */
  lemma PreprocessedCommanderShownColorless(df: Table, name: string)
    requires Preprocess(df).Ok?
    ensures "Name" in Preprocess(df).value.columns
    ensures var found := SelectCommander(Preprocess(df).value, name);
      found.Some? ==> ColorsDisplay(ColorCell(found.value)) == Ok("C (Colorless)")
    ensures SelectCommanderWithColors(Preprocess(df).value, name).Ok?
    ensures PreprocessAsWritten(df).Ok? ==> PreprocessAsWritten(df) == Preprocess(df)
  {
    PreprocessAsWrittenRaises(df);
    var db := Preprocess(df).value;
    assert CoreColumns[0] == "Name";
    var i := FirstMatch(db.rows, name);
    if i < |db.rows| {
      PreprocessRow(df, i);
    }
  }
  /** The one-letter strings of `s`, in order: what `str.join` iterates over
      when it is handed a string. */
  function Letters(s: string): (r: seq<string>)
    ensures |r| == |s| && forall i :: 0 <= i < |s| ==> r[i] == [s[i]]
  {
    seq(|s|, i requires 0 <= i < |s| => [s[i]])
  }

  /** Joining a string's letters with nothing in between gives the string back. */
  lemma {:induction false} JoinLettersRoundTrip(s: string)
    ensures Join("", Letters(s)) == s
  {
    if |s| > 1 {
      assert Letters(s)[1..] == Letters(s[1..]);
      JoinLettersRoundTrip(s[1..]);
      assert s == [s[0]] + s[1..];
    }
  }

  /** Joining a string's letters with the one-character separator `d`: the
      letters sit at the even positions and `d` at the odd ones. */
  lemma {:induction false} JoinLettersLayout(d: char, s: string)
    requires s != []
    ensures var r := Join([d], Letters(s));
      && |r| == 2 * |s| - 1
      && (forall i :: 0 <= i < |s| ==> r[2 * i] == s[i])
      && (forall i :: 0 <= i < |s| - 1 ==> r[2 * i + 1] == d)
  {
    if |s| > 1 {
      assert Letters(s)[1..] == Letters(s[1..]);
      JoinLettersLayout(d, s[1..]);
      var rest := Join([d], Letters(s[1..]));
      var r := Join([d], Letters(s));
      assert r == [s[0]] + [d] + rest;
      forall i | 1 <= i < |s| ensures r[2 * i] == s[i] {
        assert r[2 * i] == rest[2 * (i - 1)];
      }
      forall i | 1 <= i < |s| - 1 ensures r[2 * i + 1] == d {
        assert r[2 * i + 1] == rest[2 * (i - 1) + 1];
      }
    }
  }

  /** `colors_str` as evidently intended for the preprocessed catalog, whose
      colour identity is already a string: its letters comma-joined, and
      `'C (Colorless)'` for `'C'`, the empty string and anything that is not a
      non-empty list or string. For `'BR'` that is `'B,R'`. */
  function ColorsDisplayCorrected(colors: Option<JsonValue>): (r: Result<string, LoadError>)
    ensures colors.Some? && colors.value.JString? ==> r.Ok?
    ensures colors.Some? && colors.value.JString? ==>
      (r.value == "C (Colorless)" <==> colors.value.s == "" || colors.value.s == "C")
    ensures colors.Some? && colors.value.JString? && colors.value.s != "" ==>
      r.value != "" && r.value[0] == colors.value.s[0]
    ensures colors.Some? && colors.value.JString? && colors.value.s != "" && colors.value.s != "C" ==>
      var c := colors.value.s;
      && |r.value| == 2 * |c| - 1
      && (forall i :: 0 <= i < |c| ==> r.value[2 * i] == c[i])
      && (forall i :: 0 <= i < |c| - 1 ==> r.value[2 * i + 1] == ',')
    ensures !(colors.Some? && colors.value.JString?) ==> r == ColorsDisplay(colors)
  {
    if colors.Some? && colors.value.JString? && colors.value.s != "" && colors.value.s != "C" then
      var c := colors.value.s;
      var r := Join(",", Letters(c));
      JoinLettersLayout(',', c);
      assert r[0] == c[0];
      assert |c| >= 2 ==> r[1] == ',';
      Ok(r)
    else ColorsDisplay(colors)
  }

  /** With the correction a commander found in the preprocessed catalog is shown
      as colourless exactly when its colour identity is `'C'`, and otherwise
      starting with its first colour. */
  lemma PreprocessedCommanderShownColors(df: Table, name: string)
    requires Preprocess(df).Ok?
    ensures var found := SelectCommander(Preprocess(df).value, name);
      found.Some? ==>
        && "ColorIdentity" in found.value && found.value["ColorIdentity"].JString?
        && var c := found.value["ColorIdentity"].s;
        && var shown := ColorsDisplayCorrected(ColorCell(found.value));
        && shown.Ok?
        && (shown.value == "C (Colorless)" <==> c == "" || c == "C")
        && (c != "" ==> shown.value != "" && shown.value[0] == c[0])
  {
    var db := Preprocess(df).value;
    assert CoreColumns[0] == "Name";
    var i := FirstMatch(db.rows, name);
    if i < |db.rows| {
      PreprocessRow(df, i);
    }
  }
  /** A one-card catalog: a card named `name` whose colour identity is red and
      whose keywords are `['Haste']`. */
  function RedCatalog(name: string): Table {
    Table(["card_name", "colorIdentity", "keywords"],
          [map["card_name" := JString(name), "colorIdentity" := JArray([JString("R")]),
               "keywords" := JArray([JString("Haste")])]])
  }

  /** The selected and renamed red catalog. */
  lemma RedSelected(name: string)
    ensures var t := SelectAndRename(CommanderLegal(RedCatalog(name)));
      && "Name" in t.columns && "ColorIdentity" in t.columns && |t.rows| == 1
      && "Name" in t.rows[0] && t.rows[0]["Name"] == JString(name)
      && "ColorIdentity" in t.rows[0] && t.rows[0]["ColorIdentity"] == JArray([JString("R")])
      && "Keywords" in t.columns
  {
    var df := RedCatalog(name);
    assert CommanderLegal(df) == df;
    assert FinalColumns[0] == ("card_name", "Name") && FinalColumns[1] == ("colorIdentity", "ColorIdentity");
    assert FinalColumns[5] == ("keywords", "Keywords");
  }

  /** A one-row table holding a card named `name` whose colour identity is the
      list `['R']` normalises to one with the string `'R'`. */
  lemma RedColored(t: Table, name: string)
    requires "Name" in t.columns && "ColorIdentity" in t.columns && |t.rows| == 1
    requires "Name" in t.rows[0] && t.rows[0]["Name"] == JString(name)
    requires "ColorIdentity" in t.rows[0] && t.rows[0]["ColorIdentity"] == JArray([JString("R")])
    ensures var c := NormalizeColors(t);
      && c.Ok? && |c.value.rows| == 1 && "Name" in c.value.columns && "ColorIdentity" in c.value.columns
      && NameIs(c.value.rows[0], name) && ColorCell(c.value.rows[0]) == Some(JString("R"))
  {
    RedText();
    ColoredOneRow(t, "R");
  }

  /** Normalising a one-row table that has the column. */
  lemma ColoredOneRow(t: Table, text: string)
    requires "ColorIdentity" in t.columns && |t.rows| == 1
    requires ColorIdentityText(ColorCell(t.rows[0])) == Ok(text)
    ensures NormalizeColors(t) == Ok(Table(t.columns, [t.rows[0]["ColorIdentity" := JString(text)]]))
  {
    var rows := NormalizeRows(t.rows);
    assert rows.Ok?;
    assert rows.value == [t.rows[0]["ColorIdentity" := JString(text)]];
  }

  /** The lambda turns the list `['R']` into `'R'`. */
  lemma RedText()
    ensures ColorIdentityText(Some(JArray([JString("R")]))) == Ok("R")
  {
    assert Texts([JString("R")]) == ["R"];
    assert Sort(["R"]) == ["R"];
  }

  /** A single card named `name` with colour identity `'R'`, with the defaults
      added, is found and, as written, shown as colourless. */
  lemma RedFound(colored: Table, name: string)
    requires |colored.rows| == 1 && "Name" in colored.columns && "ColorIdentity" in colored.columns
    requires NameIs(colored.rows[0], name) && ColorCell(colored.rows[0]) == Some(JString("R"))
    ensures "Name" in WithDefaults(colored).columns
    ensures var found := SelectCommander(WithDefaults(colored), name);
      && found.Some?
      && ColorsDisplay(ColorCell(found.value)) == Ok("C (Colorless)")
      && ColorsDisplayCorrected(ColorCell(found.value)) == Ok("R")
  {
    var db := WithDefaults(colored);
    DefaultsKeepColumn(colored, 0, "ColorIdentity");
    DefaultsKeepColumn(colored, 0, "Name");
    assert NameIs(db.rows[0], name);
    assert FirstMatch(db.rows, name) == 0;
    var found := db.rows[0];
    assert SelectCommander(db, name) == Some(found);
    assert ColorCell(found) == Some(JString("R"));
    assert Letters("R") == ["R"];
  }

  /** A red commander given as a list of colours, as in the catalog: the
      preprocessing as written succeeds, since the catalog has `keywords`, and
      the commander is then shown as colourless; with the correction it is shown
      as `R`. */
  lemma RedCommanderShown(name: string)
    ensures var df := RedCatalog(name);
      && PreprocessAsWritten(df).Ok?
      && "Name" in PreprocessAsWritten(df).value.columns
      && var found := SelectCommander(PreprocessAsWritten(df).value, name);
      && found.Some?
      && ColorsDisplay(ColorCell(found.value)) == Ok("C (Colorless)")
      && ColorsDisplayCorrected(ColorCell(found.value)) == Ok("R")
  {
    var df := RedCatalog(name);
    RedSelected(name);
    var selected := SelectAndRename(CommanderLegal(df));
    RedColored(selected, name);
    RedFound(NormalizeColors(selected).value, name);
    PreprocessAsWrittenRaises(df);
  }
}
