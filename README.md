# MTG Commander deck builder: command parsing, catalog preparation, commander lookup

This project is a Dafny model of the deterministic core of a Commander deck-building
assistant. It covers three parts of the program:

- **The strategy command parser** (`OllamaAgent._parse_json_response`). A language model's
  reply is searched for the leftmost match of `\{[^{}]*\}`. That text is stripped and
  decoded as JSON. The result is accepted only when it is a dict holding `function`,
  `strategy` and a list under `keywords`.
- **Catalog preparation** (`load_and_preprocess_data`, from the parsed catalog on).
  - Each card entry whose chosen details are a dict becomes one record carrying its
    name; the other entries are skipped.
  - The table is cut down to Commander-legal cards.
  - The nine core columns are selected and renamed.
  - The colour identity list becomes a sorted, concatenated string, or `'C'`.
  - Missing core columns are added with defaults.
- **The user-facing steps of the application.**
  - `load_collection_data`: the distinct names with a positive count.
  - `get_user_commander`: the trimmed input, or the default commander.
  - `select_commander`: the first row with the requested name and the colour text shown
    for it.

Modules:
- `Wrappers`: `Option`, `Result`.
- `Strings`: Python's `isspace`, `strip`, string ordering, `sorted` and `join`, and a
  character count (`Count`) used only to state what is assumed of the JSON decoder
  (`LlmAgent.DecodeCountsBraces`).
- `Json`: JSON values and the dict a JSON object becomes.
- `LlmAgent`: the command parser.
- `DataLoader`: the catalog and collection loaders. The default-column loop, which
  changes `final_df` in place, is the class `Frame`.
- `DeckBuilder`: the functions of `main.py`.

`json.loads` is a parameter `decode` of the parser, where `None` stands for
`JSONDecodeError`. A DataFrame is a `Table`: its column labels and its rows, each row a
map from label to value, with a missing key standing for NaN.

The docstring at `src/llm_agent.py:24` shows a command with `"function": "select_cards"` and a
list of string keywords. The code checks only that the three keys exist and that
`keywords` is a list, and the model follows the code (`ShapeOnlyChecked`).

## Model

| member | source | states |
|---|---|---|
| Strings.Strip | src/llm_agent.py:30 | the result has no whitespace at either end, and it is empty exactly when the input is all whitespace |
| Strings.StripSlice | src/main.py:16 | `strip()` returns one slice of the input, and everything cut off on either side is whitespace |
| Strings.StripTrimmed | src/main.py:16 | a string with no whitespace at either end is its own `strip()` |
| Strings.Sort | src/data_loader.py:93 | `sorted()` returns an ascending permutation of its input |
| Strings.SortedPermutationUnique | src/data_loader.py:93 | any two ascending permutations of the same strings are equal, so `sorted()` has one possible result |
| Strings.StrLeTotal | src/data_loader.py:93 | any two strings are comparable under Python's string order |
| Strings.StrLeTransitive | src/data_loader.py:93 | Python's string order is transitive |
| Strings.StrLeAntisymmetric | src/data_loader.py:93 | two strings each `<=` the other are equal |
| Strings.Join | src/data_loader.py:93 | `join` starts with the first element, and it is empty exactly when all elements are empty and no separator is placed |
| Strings.JoinAppend | src/data_loader.py:93 | appending an element to a non-empty list appends the separator and then that element, so the separator sits between every two neighbours and nowhere else |
| Json.AsDict | src/llm_agent.py:34-40 | the dict that `json.loads` builds has exactly the members' keys, and each key holds the value of its last member |
| Json.FlatWhenSingleObject | src/llm_agent.py:27 | a value holding at most one object contains no nested object |
| LlmAgent.SearchFrom | src/llm_agent.py:27 | scanning from a position finds a match starting there or later, with no match starting in between; it finds nothing only when no match starts there or later |
| LlmAgent.FindSpan | src/llm_agent.py:27 | `re.search` returns the leftmost match of `\{[^{}]*\}`, and returns nothing exactly when there is no match |
| LlmAgent.LeftmostSpanFound | src/llm_agent.py:27 | the leftmost match is the match reported |
| LlmAgent.SpanAcrossLines | src/llm_agent.py:27 | a match may span line breaks, because `[^{}]` matches a newline (with or without `re.DOTALL`) |
| LlmAgent.MatchedText | src/llm_agent.py:29-30 | the matched text opens with `{`, closes with `}`, holds no other brace, and `strip()` leaves it unchanged |
| LlmAgent.IsCommand | src/llm_agent.py:36-40 | the shape check holds exactly for an object in which `function` and `strategy` occur and whose last `keywords` member holds a list |
| LlmAgent.AcceptCandidate | src/llm_agent.py:33-44 | the decoded value is returned exactly when it decodes and has the command shape |
| LlmAgent.ParseJsonResponse | src/llm_agent.py:21-46 | an accepted value is a dict with `function`, `strategy` and a list under `keywords`; with no match, the result is `None` |
| LlmAgent.ParseUsesLeftmostSpan | src/llm_agent.py:27-46 | the result is the leftmost match decoded when that value has the command shape, and `None` otherwise |
| LlmAgent.LaterCandidateIgnored | src/llm_agent.py:27-46 | a valid command in a later match does not rescue a response whose first match is not one |
| LlmAgent.OneOpenBrace | src/llm_agent.py:27 | a matched text holds exactly one `{` |
| LlmAgent.AcceptedCandidateFlat | src/llm_agent.py:34-41 | a candidate with a single `{` that is accepted is a flat object, when the decoder is faithful (made no more objects than braces) |
| LlmAgent.NestedObjectNeverAccepted | src/llm_agent.py:27-41 | with a faithful decoder, an accepted command never holds a nested object |
| LlmAgent.ShapeOnlyChecked | src/llm_agent.py:36-40 | any `function` value, any `strategy` value and any list elements pass the check |
| DataLoader.ChosenDetails | src/data_loader.py:49 | a non-empty list stands for its first element, anything else for itself, so an empty list is never a dict |
| DataLoader.FlattenCards | src/data_loader.py:47-54 | the loop builds exactly the flattened record list |
| DataLoader.FlattenedCharacterized | src/data_loader.py:47-54 | an entry yields a record exactly when its chosen details are a dict; records follow entry order, at most one per entry, and each carries its entry's key as `card_name` |
| DataLoader.OriginsExact | src/data_loader.py:48-51 | the entries that yield records are listed in increasing order, and none is missed |
| DataLoader.FlattenedAtOrigins | src/data_loader.py:49-54 | the k-th record is the dict of the k-th entry that yields one, with its name added |
| DataLoader.Broadcast | src/data_loader.py:100 | assigning a scalar sets it in every row and appends the label when it is new |
| DataLoader.KeepLegal | src/data_loader.py:67 | the mask keeps exactly the rows whose legality is `'Legal'`, in order and with their multiplicity |
| DataLoader.CommanderLegal | src/data_loader.py:63-67 | without the legality column the table is kept whole; with it, only the legal rows are kept, in order |
| DataLoader.CoreColumnsAreNewNames | src/data_loader.py:73-83 | the nine source columns are distinct, and so are their nine new names |
| DataLoader.KeptPairs | src/data_loader.py:86 | the kept columns are those the table has, in declaration order |
| DataLoader.NewNames | src/data_loader.py:87 | the renamed labels are the kept pairs' new names, in order |
| DataLoader.NewNameKept | src/data_loader.py:86-87 | a new name is among the selected labels exactly when its source column is in the table |
| DataLoader.ProjectWith | src/data_loader.py:87 | a projected row holds each pair's new name exactly when the table and the row have its source, with the source's value |
| DataLoader.Project | src/data_loader.py:87 | a renamed row holds each core name exactly when its source is present, with that value, and holds nothing else |
| DataLoader.SelectAndRename | src/data_loader.py:86-87 | the selected table has kept pairs' names as labels, as many rows as before, and each row renamed and cut to the core columns |
| DataLoader.ColorIdentityText | src/data_loader.py:92-94 | the lambda raises exactly on a non-empty list holding a non-string, and gives `'C'` for anything that is not a non-empty list |
| DataLoader.ColorIdentityTextOfList | src/data_loader.py:93 | for a list of strings, the text is the concatenation of its one ascending arrangement, and it is empty only when every element is empty |
| DataLoader.NormalizeRows | src/data_loader.py:92-94 | `apply` succeeds exactly when the lambda succeeds on every row, and then each row's identity is replaced by its text |
| DataLoader.NormalizeColors | src/data_loader.py:92-94 | reading the column of a table without it raises `KeyError('ColorIdentity')`; otherwise the table is the normalised rows |
| DataLoader.DefaultValue | src/data_loader.py:99 | the default is an empty list exactly for `Keywords`, and the empty string otherwise |
| DataLoader.AddDefaults | src/data_loader.py:97-100 | the loop keeps existing columns in place with their values; each missing name becomes a column holding its default in every row; nothing else is added |
| DataLoader.AddedInOrder | src/data_loader.py:97-100 | the appended labels are names the table lacked, each appended once, in the order they first appear in the loop |
| DataLoader.WithDefaults | src/data_loader.py:97-100 | afterwards every core column is present |
| DataLoader.WithDefaultsIdempotent | src/data_loader.py:97-100 | running the default loop twice is the same as running it once |
| DataLoader.AllPresentUnchanged | src/data_loader.py:98 | the loop changes nothing when every name is already a column |
| DataLoader.AddDefaultsAsWritten | src/data_loader.py:97-100 | the loop as written raises exactly when `Keywords` must be added to a table with rows; otherwise it agrees with the intended loop |
| DataLoader.KeywordsMissingRaises | src/data_loader.py:99-100 | for any table reaching the default loop with rows but no `Keywords`, the loop as written raises, while the intended loop gives every row an empty list |
| DataLoader.KeywordsDefaultRaises | src/data_loader.py:99-100 | a one-row table reaching the default loop without `Keywords` makes the loop as written raise |
| DataLoader.Frame.SetColumn | src/data_loader.py:100 | `final_df[name] = value` changes the frame into the broadcast table |
| DataLoader.Frame.FillMissingColumns | src/data_loader.py:97-100 | the in-place loop leaves the frame equal to the intended default-added table |
| DataLoader.Preprocess | src/data_loader.py:63-100 | with the default loop as intended, a successful result has every core column and one row per legal card |
| DataLoader.PreprocessAsWritten | src/data_loader.py:63-100 | the pipeline as written, ending in `AddDefaultsAsWritten`; a successful result has every core column and one row per legal card |
| DataLoader.PreprocessAsWrittenRaises | src/data_loader.py:63-100 | the pipeline as written raises where the intended one does and also on a catalog with legal cards and no `keywords`; when it succeeds it equals the intended one |
| DataLoader.PreprocessAsWrittenFailsExactly | src/data_loader.py:63-100 | as written, preprocessing raises exactly when the catalog lacks `colorIdentity`, a legal card's identity is a list holding a non-string, or there are legal cards and no `keywords` |
| DataLoader.SelectedKeywordsColumn | src/data_loader.py:86-87 | the renamed table has `Keywords` exactly when the original has `keywords` |
| DataLoader.DefaultsAsWrittenCore | src/data_loader.py:97-100 | over the core columns, the loop as written raises exactly when `Keywords` is missing from a table with rows, and otherwise gives the intended table |
| DataLoader.LoadAndPreprocess | src/data_loader.py:58-106 | the imperative pipeline, with the default loop as intended, returns exactly the intended preprocessing result |
| DataLoader.SelectedColorCell | src/data_loader.py:75 | a renamed row's `ColorIdentity` is its original `colorIdentity` |
| DataLoader.SelectedLegality | src/data_loader.py:82 | a legal row's renamed legality cell says `'Legal'` |
| DataLoader.SelectedColorColumn | src/data_loader.py:86-87 | the renamed table has `ColorIdentity` exactly when the original has `colorIdentity` |
| DataLoader.PreprocessFailsWhereColorsFail | src/data_loader.py:92-100 | with the default loop as intended, preprocessing raises exactly where colour normalisation raises |
| DataLoader.RowsFailExactly | src/data_loader.py:92-94 | `apply` raises exactly when some row's colour cell is a list holding a non-string |
| DataLoader.SelectedColorsFailExactly | src/data_loader.py:86-94 | with the column present, normalisation raises exactly at a row whose colour identity is a list holding a non-string |
| DataLoader.PreprocessFailsExactly | src/data_loader.py:63-100 | with the default loop as intended, preprocessing raises exactly when the catalog lacks `colorIdentity` or a legal card's identity is a list holding a non-string |
| DataLoader.DefaultsKeepColumn | src/data_loader.py:97-100 | a present column keeps its cells through the default loop |
| DataLoader.DefaultsAddCoreOnly | src/data_loader.py:97-100 | the default loop adds only core fields |
| DataLoader.LegalRow | src/data_loader.py:67 | every row kept by the filter is legal |
| DataLoader.ColorsKeepOther | src/data_loader.py:92 | colour normalisation leaves every other cell and the labels alone |
| DataLoader.PreprocessRow | src/data_loader.py:86-100 | every preprocessed row holds a string colour identity and core fields only |
| DataLoader.PreprocessRowLegal | src/data_loader.py:63-100 | with the legality column, every preprocessed row says `'Legal'` |
| DataLoader.PositiveNames | src/data_loader.py:122 | the names are exactly those of rows with a count above zero |
| DataLoader.FirstPositive | src/data_loader.py:122 | the first row of the file with a positive count and the given name |
| DataLoader.PositiveNamesInFileOrder | src/data_loader.py:122 | a name that first appears earlier in the filtered `Name` column first has a positive row earlier in the file |
| DataLoader.CollectionInFileOrder | src/data_loader.py:122 | the owned names come in the order of their first positive row in the file |
| DataLoader.FirstIndex | src/data_loader.py:122 | the position returned holds the value, and no earlier position does |
| DataLoader.FirstIndexInPrefix | src/data_loader.py:122 | a value's first position is the same in a prefix that contains it |
| DataLoader.Unique | src/data_loader.py:122 | `unique()` keeps each value once, with the same membership, in order of first appearance |
| DataLoader.LoadCollection | src/data_loader.py:108-129 | a missing or unreadable file gives `[]`; otherwise the distinct names with a positive count, in order of first appearance |
| DeckBuilder.GetUserCommander | src/main.py:10-18 | blank input gives `'Krenko, Mob Boss'`; otherwise the stripped input; the name is always non-empty and trimmed |
| DeckBuilder.FirstMatch | src/main.py:26-32 | the position found has the name, and no earlier row does |
| DeckBuilder.SelectCommander | src/main.py:26-32 | `None` exactly when no row has the name; otherwise the first row that has it |
| DeckBuilder.SelectCommanderWithColors | src/main.py:20-40 | `None` exactly when no row has the name; it raises exactly when the found row's colour text cannot be built; otherwise the first such row and its colour text |
| DeckBuilder.ColorsDisplay | src/main.py:35-36 | a non-empty list is comma-joined and starts with its first colour; anything else is `'C (Colorless)'`; a non-string element raises |
| DeckBuilder.PreprocessedCommanderShownColorless | src/main.py:35-36 | on a preprocessed catalog, every commander found is shown as `'C (Colorless)'` and `select_commander` never raises; the preprocessing as written, when it succeeds, gives the same catalog |
| DeckBuilder.Letters | src/main.py:36 | a string's one-letter strings, in order |
| DeckBuilder.JoinLettersRoundTrip | src/main.py:36 | joining a string's letters with nothing in between gives the string back |
| DeckBuilder.JoinLettersLayout | src/main.py:36 | joining a string's letters with a one-character separator puts the letters at the even positions and the separator at the odd ones |
| DeckBuilder.ColorsDisplayCorrected | src/main.py:35-36 | a colour string is shown as `'C (Colorless)'` exactly when it is `'C'` or empty; any other is shown as its letters comma-joined (`'BR'` as `'B,R'`): length `2n-1`, the letters at even positions, commas at odd ones |
| DeckBuilder.PreprocessedCommanderShownColors | src/main.py:35-36 | with the correction, a commander found is shown as colourless exactly when its identity is `'C'` (or empty) |
| DeckBuilder.RedSelected | src/data_loader.py:86-87 | a one-card red catalog with keywords, renamed, keeps its name, its list `['R']` and its `Keywords` column |
| DeckBuilder.ColoredOneRow | src/data_loader.py:92-94 | a one-row table normalises to its row with the text in place |
| DeckBuilder.RedText | src/data_loader.py:93 | the lambda turns `['R']` into `'R'` |
| DeckBuilder.RedColored | src/data_loader.py:92-94 | the red card's identity becomes the string `'R'` |
| DeckBuilder.RedFound | src/main.py:26-36 | the red card is found, and as written it is shown as colourless |
| DeckBuilder.RedCommanderShown | src/main.py:35-36 | the catalog with one red card that has keywords preprocesses as written; its commander is then shown as `'C (Colorless)'`, and as `R` with the correction |

## Left out

- The HTTP request to the model server, the prompts, the payload, the timeout and `OllamaAgent.__init__` are left out. They are I/O and configuration.
- `get_strategy_command` is left out. It is the network call around the parser.
- The inside of `json.loads` is not modelled; it is the parameter `decode`.
- The regular-expression engine is replaced by a direct scan for the one pattern used.
- `LlmAgent.NestedObjectNeverAccepted` holds only for decoders that make no more objects than the text has `{` characters. `json.loads` is one such decoder, but the model takes it as a hypothesis.
- The `print` in the `JSONDecodeError` handler is left out. It is console output.
- A `RecursionError` from `json.loads` on a deeply nested array inside the braces is not modelled. The handler at `src/llm_agent.py:42` does not catch it, but `decode` returns only a value or `None`.
- File access is left out: the existence checks, `mkdir`, reading the catalog and the CSV cache, and writing the cache. The cached path rereads a CSV and is not modelled.
- A catalog that is not valid JSON (line 39) is not modelled. The model starts from the parsed entries.
- `data.get('data', {})` is not modelled. The entries are an input.
- `pd.json_normalize` (line 58) is left out. It turns records into columns such as `legalities.commander`; the model takes that table as an input.
- The `dropna` after the legality mask (line 67) is not modelled. It removes nothing, because every kept row has a legality value.
- `DataLoader.FlattenCards` does not model the in-place update of the parsed entry's dict (line 53). The parsed catalog is not used again, so the aliasing cannot be observed.
- Numbers are modelled as integers. No comparison the core makes depends on floating point.
- `DataLoader.LoadCollection`: every exception while reading the collection is one `Unreadable` case, because the source catches all of them. That includes a missing `Count` or `Name` column, and a count that cannot be compared.
- `DataLoader.LoadCollection`: names are taken to be strings; a NaN name is not modelled.
- `DeckBuilder.SelectCommander` and `DeckBuilder.SelectCommanderWithColors` require a `Name` column. The source raises `KeyError` without one, and a preprocessed catalog always has one (`PreprocessedCommanderShownColorless`).
- `DeckBuilder.ColorsDisplay` states only the prefix of the comma-joined text, not its full layout. On a preprocessed catalog the list branch never runs (`PreprocessedCommanderShownColorless`), so its layout never reaches the user.
- `DataLoader.Preprocess` models lines 97-100 as intended, not as written. The code as written is `DataLoader.PreprocessAsWritten`, which `PreprocessAsWrittenRaises` relates to it.
- `DataLoader.LoadAndPreprocess` runs the intended default loop (`Frame.FillMissingColumns`). It does not raise at line 100 for legal cards without `keywords`, where the code as written does (`PreprocessAsWrittenFailsExactly`).
- `DataLoader.PreprocessFailsWhereColorsFail` is about the intended pipeline. It leaves out the line-100 raise, which `PreprocessAsWrittenRaises` states.
- `DataLoader.PreprocessFailsExactly` is about the intended pipeline. The failure condition of the code as written also includes legal cards without `keywords` (`PreprocessAsWrittenFailsExactly`).
- `input()`, every `print`, and `run_deck_builder_app` are left out. They are console I/O and orchestration.
- `src/main.py:77` calls `agent.generate_suggestions`, but `src/llm_agent.py` does not define it, so no card selection is modelled.

## Findings

| source | as written | input that shows it | evidently intended | confidence | as-written member | corrected member |
|---|---|---|---|---|---|---|
| src/data_loader.py:97-100 | `final_df['Keywords'] = []` assigns an empty list to the whole column, which pandas rejects with a length-mismatch `ValueError` when the table has rows | a catalog whose cards have no `keywords` field, e.g. one card `Krenko, Mob Boss` with colour identity `R` | every card gets an empty keyword list | not executed | DataLoader.AddDefaultsAsWritten | DataLoader.WithDefaults |
| src/main.py:35-36 | `colors_str` joins only when `ColorIdentity` is a list, but preprocessing has already turned it into a string, so every commander is shown as `C (Colorless)` | a catalog with one red card whose `colorIdentity` is `['R']` and whose `keywords` are `['Haste']`, looked up by name (it preprocesses without error as written) | show the commander's colours, `R` for a red commander | not executed | DeckBuilder.PreprocessedCommanderShownColorless | DeckBuilder.ColorsDisplayCorrected |
