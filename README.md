# FastAccess launcher: a Dafny model of its decision logic

FastAccess is a small desktop launcher. It shows a catalog of "apps" (named
URLs or local programs) and "groups" (named lists of items that open
together) as a grid of buttons, lets the user add and delete them through
dialogs, and runs a voice listener that turns a Spanish transcript into "run
this app" / "run this group" actions.

This project models the three pieces of that program that make decisions:

- **Voice command resolution** (`voice.py`), in modules `Voice` and
  `Dispatch`:
  - The transcript is lower-cased. Whole-word occurrences of the filler
    tokens `abrir|abre|abrirme|ir a|quiero|pon|ejecuta|lanza` are removed
    with Python `re` semantics: leftmost-first alternation, `\b` judged on
    the original string, and scanning resumed after each match. The result
    is then stripped.
  - The first app whose lower-cased name occurs in the cleaned text is run.
    Then, independently, the first group chosen the same way is run. The
    "not found" sentence is spoken when neither matched.
- **The catalog window** (`gui.py`, class `FastAccessGUI`), in module `Gui`:
  - The class holds the two ordered dicts `apps` and `groups`, the commands
    file as a `stored` field, and the button grid.
  - Group items resolve to at most one target each, and running a group
    opens them in item order.
  - The add and delete dialogs are modelled, with their answers as
    parameters.
  - The two-column grid layout is modelled.
  - The class invariant `Consistent` says that the dicts in memory are
    always what reloading the file gives, and that buttons fill the grid
    row by row.
- **The older target dispatcher** (`actions.py`, `execute_command`), in
  module `Actions`.

Support modules:

- `Text` gives the Python string operations used: `lower`, `strip`,
  `split`, `startswith`, `in` and the `\w` class.
- `Dicts` models Python's insertion-ordered `dict`: a key list plus a map.
  Assigning to a present key keeps its position; deleting removes it from
  the order.
- `Platform` makes `os.path.exists` membership in a caller-supplied set of
  paths. It records `webbrowser.open` / `os.startfile` as `Opening` values.
- `Examples` works concrete transcripts and items through the rules.

Outside effects become data:

- Dialog answers are `Option` parameters; `None` means the dialog was
  cancelled.
- Message boxes and the console reports of `resolve_item_to_targets` are
  result values; `RunGroup` returns the reports in item order.
- Spoken sentences and calls to `run_action_fn` / `run_group_fn` are
  `Reaction` values, returned in order.

Some behaviour of the code that a reader might not expect:

- The voice listener compares names after lower-casing only. There is no
  diacritic folding and no whitespace removal. Group items and the delete
  dialogs compare names exactly.
- There is no similarity fallback and no reverse containment: only
  `name.lower() in command` counts.
- The group scan also runs after an app matched, so one utterance can start
  an app and a group.
- Duplicate names get no suffix:
  - `add_command` reassigns the name in memory and appends a second record
    to the file, and after the reload the last record wins.
  - `add_group` still appends a second button for the group.

## Model

| member | source | states |
|---|---|---|
| Voice.Boundary | voice.py:26 | `\b` at an index: exactly one of the two neighbouring characters is a `\w` character, and the ends of the string count as non-word. |
| Voice.TryAlternatives | voice.py:26 | The alternation tries the tokens in their written order. The result is the first one present at the index and followed by `\b`; no earlier one is; `None` means none is. |
| Voice.MatchAt | voice.py:26 | The pattern matches at an index exactly when there is a `\b` there and some token is a whole word from there. The reported token is the first such in pattern order. |
| Voice.FillerShape | voice.py:26 | The facts about the eight tokens that the word-boundary argument uses. Each is at least 3 characters and starts with a word character. Only `ir a` contains a non-word character. |
| Voice.NoTokenStartsWith | voice.py:26 | The pattern cannot match at a character that starts no token. |
| Voice.SkipMatch | voice.py:25-28 | Where the pattern matches, the matched token is dropped and the substitution resumes right after it. |
| Voice.KeepChar | voice.py:25-28 | Where the pattern does not match, the character is kept and the scan moves on by one. |
| Voice.KeepStretch | voice.py:25-28 | A stretch with no match is copied unchanged into the result. |
| Voice.InnerBoundary | voice.py:26 | A `\b` strictly inside an occurrence of a token only happens around the space of `ir a`. |
| Voice.SameStart | voice.py:26 | At most one token length can be a whole word at a given index. |
| Voice.Disjoint | voice.py:26 | Two whole-word token occurrences never overlap unless they start at the same index. |
| Voice.TokenStart | voice.py:26 | Every token occurrence starts with a word character, and a token starting with `a` continues with `b`. |
| Voice.IrAEnd | voice.py:26 | A whole-word `ir a` has a space and then an `a` that ends the word. |
| Voice.UncoveredSkip | voice.py:25-28 | Characters covered by whole-word token occurrences contribute nothing to the uncovered text. |
| Voice.UncoveredKeep | voice.py:25-28 | An uncovered character is part of the uncovered text. |
| Voice.UncoveredDrop | voice.py:25-28 | A covered character is not part of the uncovered text. |
| Voice.NoMatchStep | voice.py:25-28 | Where the scan finds no match and no earlier occurrence reaches this far, the character is not covered. The invariant moves one step on. |
| Voice.MatchStep | voice.py:25-28 | A match covers its whole span, and no whole-word occurrence straddles its end. |
| Voice.MatchCovers | voice.py:25-28 | Every character of a whole-word match is covered. |
| Voice.MatchEndsClean | voice.py:25-28 | After a match, no other whole-word occurrence started before its end reaches past it. |
| Voice.RemoveFromUncovered | voice.py:25-28 | From any point where no occurrence straddles, the substitution's output is exactly the uncovered characters. |
| Voice.KeepStep | voice.py:25-28 | Step of the previous induction for a kept character. |
| Voice.SkipStep | voice.py:25-28 | Step of the previous induction for a removed token. |
| Voice.RemoveFillersExactly | voice.py:25-28 | `re.sub` removes exactly the characters that lie in a whole-word occurrence of a filler token. Tokens inside longer words and all other characters (spaces included) stay. |
| Voice.RemoveFrom | voice.py:25-28 | The scan of `re.sub` from one index on. Its meaning is stated by `RemoveFromUncovered`, `SkipMatch` and `KeepChar`: from a point no occurrence straddles, it yields exactly the uncovered characters. |
| Voice.RemoveFillers | voice.py:25-28 | `re.sub` of the filler pattern with `""`. Its meaning is stated by `RemoveFillersExactly`. |
| Voice.Filter | voice.py:25-29 | The substitution followed by `strip()`. Its meaning is stated by `FilterExactly`. |
| Voice.FilterExactly | voice.py:25-29 | The cleaned command is the text outside every whole-word filler occurrence, with surrounding whitespace removed. |
| Text.Lower | voice.py:22 | `str.lower` character by character. What it does to each character is stated by `LowerChar`. |
| Text.LowerChar | voice.py:22 | `str.lower` on one ASCII or Latin-1 character maps upper case to lower case (code + 32) and leaves every other character alone. |
| Text.Contains | voice.py:35 | Python's `pat in text`. Its meaning is stated by `ContainsIff`. |
| Text.StartsWith | actions.py:7 | `s.startswith(p)`: the first `|p|` characters of `s` are `p`. Used by `ExecuteCommand` and, on the lower-cased target, by `IsWebUrl`. |
| Text.ContainsIff | voice.py:35 | `pat in text` holds exactly when `pat` occurs at some index of `text`. |
| Text.IsSpace | voice.py:29 | The characters `str.isspace()` accepts, which `strip()` removes. The same `strip()` is applied at gui.py:181, 191 and 240. |
| Text.IsWordChar | voice.py:26 | The `\w` class of Python's `re` on `str`, restricted to Latin-1: ASCII letters, digits, `_`, the Latin-1 letters and the Latin-1 numeric characters. |
| Text.LeadingSpaces | voice.py:29 | Counts the whitespace prefix: all leading characters counted are whitespace and the next one is not. |
| Text.TrailingSpaces | voice.py:29 | Counts the whitespace suffix, in the same way. |
| Text.Strip | voice.py:29 | `str.strip()` removes leading and trailing whitespace and keeps interior whitespace. The result has no surrounding whitespace, and it is empty exactly when the input is all whitespace. |
| Text.StripTrimmed | voice.py:29 | Stripping a string with no surrounding whitespace changes nothing. |
| Text.StripChars | gui.py:240 | Every character of a stripped string is a character of the original. |
| Text.Split | gui.py:240 | `str.split(",")` returns at least one piece. No piece contains the separator, and joining the pieces back gives the input. |
| Text.JoinConsFirst | gui.py:240 | Prepending a character to the first piece prepends it to the join. |
| Text.SplitJoin | gui.py:240 | Splitting the join of separator-free pieces gives back exactly those pieces. |
| Dispatch.Mentions | voice.py:35 | `name.lower() in command`. `LongerNameNotMentioned` and `FirstMentioned` state what it admits. |
| Dispatch.FirstMentioned | voice.py:34-39 | The index found is the first name, in iteration order, that the command mentions. `None` exactly when no name is mentioned. |
| Dispatch.Dispatch | voice.py:31-50 | The two `for` loops with `break` and the `ejecutado` flag produce the app part, then the group part, then the apology exactly when neither loop matched. |
| Dispatch.AppPart | voice.py:34-39 | The app loop's reactions. `PartsShape`, `AppRunIff` and `FirstAppRuns` state them. |
| Dispatch.GroupPart | voice.py:41-47 | The group loop's reactions. `PartsShape`, `GroupRunIff` and `FirstGroupRuns` state them. |
| Dispatch.Apology | voice.py:49-50 | The final apology. `ApologyIff` states when it is spoken. |
| Dispatch.Reactions | voice.py:31-50 | The whole reaction list, which the loops of `Dispatch.Dispatch` produce. `ReactionsShape` states its shape. |
| Dispatch.Respond | voice.py:22 | One pass of the listening loop. A recognised transcript is lower-cased, filtered and dispatched; a failed recognition gets the "not understood" sentence. |
| Dispatch.LongerNameNotMentioned | voice.py:35 | Containment is one-directional: a name longer than the command never matches it. |
| Dispatch.ReactionsShape | voice.py:31-50 | An app runs iff some app name is mentioned, and a group runs iff some group name is mentioned, independently. "No encontré ese comando" is spoken iff neither. |
| Dispatch.AppRunIff | voice.py:34-39 | An app is run exactly when the app scan finds a name. |
| Dispatch.GroupRunIff | voice.py:41-47 | A group is run exactly when the group scan finds a name, whatever the app scan did. |
| Dispatch.ApologyIff | voice.py:49-50 | The apology is spoken exactly when both scans found nothing. |
| Dispatch.PartsShape | voice.py:34-47 | The app part runs no group, and the group part runs no app. Neither contains the apology. Each part is empty exactly when its scan found nothing, and otherwise starts with its run. |
| Dispatch.AtMostOneEach | voice.py:34-47 | At most one app and at most one group are run per utterance. |
| Dispatch.FirstAppRuns | voice.py:34-39 | When app i is the first mentioned, the reactions start with running it and announcing its name, and no other app runs. |
| Dispatch.GroupPartRunsNoApp | voice.py:41-47 | The group loop never runs an app. |
| Dispatch.FirstGroupRuns | voice.py:41-47 | When group i is the first mentioned, running and announcing it comes right after the app part (empty or not) and ends the reactions. |
| Dicts.Empty | gui.py:81 | The empty dict is well formed. |
| Dicts.Put | gui.py:197 | `d[k] = v`: `k` maps to `v` and other keys keep their values. A new key goes to the end of the order; an existing key keeps its place. |
| Dicts.Remove | gui.py:217 | `del d[k]`: `k` is gone, other keys keep their values, and the remaining keys keep their order. |
| Dicts.Values | gui.py:87 | `d.values()` lists one value per key, in key order. |
| Dicts.FromList | gui.py:81-82 | The comprehension `{x["name"]: x for x in list}` has a key for exactly the names in the list. |
| Dicts.FromListSnoc | gui.py:197-200 | Appending a record to the list is assigning it in the dict. |
| Dicts.LastEntryWins | gui.py:81-82 | When several records share a name, the last one is the one kept. |
| Dicts.Drop | gui.py:219 | The comprehension `[a for a in list if a.get("name") != name]`. `DropMembers`, `DropAppend` and `FromListDrop` state what it keeps and in what order. |
| Dicts.DropMembers | gui.py:219 | The filter keeps exactly the records whose name differs. |
| Dicts.DropAppend | gui.py:219 | The filter works piecewise, so survivors keep their relative order. |
| Dicts.DropDistinct | gui.py:219 | Filtering keys keeps them distinct. |
| Dicts.DropKeyMember | gui.py:219 | A key kept by the filter was in the list and is not the deleted one. |
| Dicts.RemoveValid | gui.py:217 | Deleting a key leaves a well-formed dict. |
| Dicts.PutRemoveSame | gui.py:217-219 | Assigning a key and then deleting it is deleting it. |
| Dicts.PutRemoveOther | gui.py:217-219 | Assigning and deleting different keys commute. |
| Dicts.FromListDropSame | gui.py:217-219 | Step of the next lemma for a record with the deleted name. |
| Dicts.FromListDropOther | gui.py:217-219 | Step of the next lemma for a record with another name. |
| Dicts.FromListDrop | gui.py:217-219 | Reloading a file from which the name was filtered out gives the old dict with that key deleted, other keys in the same order. |
| Gui.IsWebUrl | gui.py:114 | The lower-cased target starts with `http://` or `https://`. `Examples.PrefixRulesDiffer` contrasts it with `actions.py`. |
| Gui.Open | gui.py:114-117 | What `execute_target` does with one target. `FastAccessGUI.ExecuteTarget` is the method it specifies, and `OpenAll` lifts it to a list. |
| Gui.Resolve | gui.py:121-152 | The targets of one item. `FastAccessGUI.ResolveItemToTargets` is the method it specifies, and `NoteIff` ties it to the reports. |
| Gui.Note | gui.py:128-150 | The console report of one item, if any. `NoteIff` states when there is one. |
| Gui.NoteIff | gui.py:128-150 | An item is reported exactly when it is a string or a dict and resolves to no target; other values are skipped silently. |
| Gui.GroupTargets | gui.py:164-165 | The targets of a group's items, in item order. `GroupTargetsEmpty` and `GroupTargetsAppend` state its properties. |
| Gui.GroupNotes | gui.py:164-165 | The reports of a group's items, in item order. `GroupNotesEmpty` states its properties. |
| Gui.GroupNotesEmpty | gui.py:164-170 | A group prints no report exactly when every item resolves or is skipped silently, and it prints at most one report per item. |
| Gui.NotesPrefixStep | gui.py:164-165 | Handling one more item appends that item's report, if any. |
| Gui.OpenAll | gui.py:166-167 | One opening per target, in order, each decided by `execute_target`. |
| Gui.OpenAllSnoc | gui.py:166-167 | Opening one more target appends its opening. |
| Gui.OpenAllAppend | gui.py:164-167 | Opening two target lists in turn is opening their concatenation. |
| Gui.GroupTargetsAppend | gui.py:164-165 | The targets of a concatenation of items are the targets of the parts, in order. |
| Gui.OpenPrefixStep | gui.py:164-168 | Handling one more item appends the openings of that item's targets. |
| Gui.GroupTargetsEmpty | gui.py:164-170 | A group has no target exactly when no item resolves, and it has at most one target per item. |
| Gui.GroupOpenings | gui.py:164-170 | A group opens nothing exactly when none of its items resolves. |
| Gui.CleanPieces | gui.py:240 | Stripping the pieces and dropping the blank ones leaves non-empty, trimmed items and never more items than pieces. |
| Gui.CleanPiecesAvoid | gui.py:240 | A character in no piece is in no item. |
| Gui.ParseItems | gui.py:240 | The items of the "add group" answer are non-empty, have no surrounding whitespace and contain no comma. |
| Gui.CleanPiecesClean | gui.py:240 | Already clean pieces pass through unchanged. |
| Gui.ParseItemsJoin | gui.py:240 | Writing clean items separated by commas and parsing them back gives the same items in the same order. |
| Gui.TextItems | gui.py:240-241 | The new group's items are the parsed strings, in order. |
| Gui.NextCell | gui.py:93-96 | Advancing the column and wrapping after the second one moves from the cell of button n to the cell of button n + 1. |
| Gui.OnGridSnoc | gui.py:253-254 | A button placed at `(count // 2, count % 2)` keeps the grid filled row by row. |
| Gui.Render | gui.py:84-108 | The layout loops place the k-th button at row k div 2, column k mod 2. The apps come first in dict order, then the groups in dict order. |
| Gui.RenderShows | gui.py:87-108 | The buttons laid out for the values of the two dicts show those dicts. |
| Gui.Load | gui.py:80-108 | Reading the file gives the dicts of its records, and the buttons show them on the grid. |
| Gui.FastAccessGUI.Consistent | gui.py:72-108 | The class invariant: the dicts are what reloading the file gives, and the buttons fill the grid row by row. Every method that models a source method keeps it; only the helper `Assign`, which sets all four fields in one step and is called with values already shown to agree, does not state it. |
| Gui.FastAccessGUI.constructor | gui.py:68-69 | The initial render establishes `Consistent` and shows the file's catalog. |
| Gui.FastAccessGUI.LoadAndRender | gui.py:72-108 | The dicts are re-read from the file (whatever they were), the file is unchanged, and the grid shows apps then groups. |
| Gui.FastAccessGUI.ExecuteTarget | gui.py:111-119 | A target whose lower-cased form starts with `http://` or `https://` goes to the browser. Any other target goes to the OS, which fails exactly when the path does not exist. |
| Gui.FastAccessGUI.ResolveItemToTargets | gui.py:121-152 | The targets are `Resolve` of the item and the report is `Note` of the item, so at most one target per item. See the end of this table for the precedence and reporting rules. |
| Gui.FastAccessGUI.RunGroup | gui.py:159-175 | Opens every target of every item, in item order, and returns the console reports in item order. The warning is shown exactly when no item resolved, even if all openings failed. |
| Gui.FastAccessGUI.RunItems | gui.py:164-168 | The outer loop yields exactly the openings of the group's targets and the reports of its items, each in item order. |
| Gui.FastAccessGUI.RunItem | gui.py:165-168 | One item: its openings are those of `Resolve` of the item, and its report is `Note` of the item. |
| Gui.FastAccessGUI.ExecuteEach | gui.py:166-168 | The inner loop opens each target of one item in turn. |
| Gui.FastAccessGUI.AddCommand | gui.py:178-203 | Nothing changes unless the name and action are non-blank after stripping and no dialog was cancelled. Otherwise the stripped record is assigned in memory and appended to the file, the window re-renders, and `Consistent` is kept. |
| Gui.FastAccessGUI.StoreApp | gui.py:194-203 | In-memory assignment and append-then-reload agree, so `Consistent` is kept. |
| Gui.FastAccessGUI.DeleteCommand | gui.py:205-222 | Nothing changes when there is no app, the answer is cancelled or blank, or the stripped name is unknown. Otherwise the name leaves the dict, every record with it leaves the file, the others keep their order, and the window re-renders. |
| Gui.FastAccessGUI.ForgetApp | gui.py:217-222 | In-memory deletion and filter-then-reload agree. |
| Gui.FastAccessGUI.AddGroup | gui.py:225-254 | Nothing changes when the name is cancelled or blank, or the items dialog is cancelled. Otherwise the group of parsed items is assigned in memory and appended to the file, and one button goes to the next free cell without a re-render. |
| Gui.FastAccessGUI.StoreGroup | gui.py:241-254 | The new group is stored in memory and in the file, and its button lands at `(count // 2, count % 2)`. |
| Gui.AppendGroup | gui.py:241-254 | Assigning a group in the dict and appending it to the file give a dict and a file that still agree, and the new button keeps the grid layout. |
| Gui.FastAccessGUI.DeleteGroup | gui.py:256-273 | The same as `DeleteCommand`, on groups. |
| Gui.FastAccessGUI.ForgetGroup | gui.py:268-273 | In-memory deletion and filter-then-reload agree, for groups. |
| Actions.ExecuteCommand | actions.py:5-12 | Every target is handled once, in order, and a target that is reported does not stop later ones. A target with the case-sensitive prefix `http` goes to the browser unchecked; any other target is launched exactly when its path exists and is otherwise reported. |
| Examples.FilterOpenSpotify | voice.py:25-29 | "abrir spotify" is cleaned to "spotify". |
| Examples.FilterKeepsLongerWord | voice.py:26 | "abrirmente" is left unchanged: a token inside a longer word is not removed. |
| Examples.FilterKeepsIrAl | voice.py:26 | "ir al cine" is left unchanged: `ir a` followed by a letter is not the token. |
| Examples.OpenMeSpotifyMatch | voice.py:26 | In "abrirme spotify", "abrir" is tried first and fails its closing `\b`, and "abrirme" matches. |
| Examples.FilterOpenMeSpotify | voice.py:25-29 | "abrirme spotify" is cleaned to "spotify". |
| Examples.FilterKeepsInnerSpaces | voice.py:25-29 | "tv pon cine" becomes "tv  cine": both spaces around a removed token stay. |
| Examples.AccentMatters | voice.py:35 | "musica" does not mention "Música": accents are not folded. |
| Examples.AppAndGroupBothRun | voice.py:34-47 | "spotify y trabajo" runs the app Spotify and the group Trabajo, each announced. |
| Examples.ItemLookupIsCaseSensitive | gui.py:129-130 | The app-name lookup of a group item is exact: "Spotify" resolves to its action, and "spotify" does not. |
| Examples.PrefixRulesDiffer | actions.py:7 | `execute_command`'s case-sensitive `startswith("http")` sends "httpfoo" to the browser and not "HTTPS://example.com". `execute_target` (gui.py:114) does the opposite. |

The `ResolveItemToTargets` row in full:

- An exact, case-sensitive app name gives that app's action, before any
  URL or path reading.
- Any other string is accepted only as a URL or an existing path.
- A dict needs a non-empty action. The action is taken unchecked when the
  dict's type is `web` or `app`, and otherwise only as a URL or an
  existing path.
- Each rejected string or dict is reported with the matching message.
- Other values are skipped silently.

## Left out

- Speech capture, Google recognition, text-to-speech, the `while True`
  loop and the greeting (voice.py:14-23). They are I/O. The transcript is
  an input, and a failed recognition is `None`.
- Dispatch.Respond: the catch-all handler (voice.py:52-54) is modelled only
  for a failed recognition. Exceptions raised inside `run_action_fn` or
  `run_group_fn` are foreign code and are not modelled.
- Text.Lower, Text.LowerChar and Text.IsWordChar cover ASCII and Latin-1.
  - Python's full Unicode case mapping and `\w` class are outside the model.
  - Characters above U+00FF are left unchanged by `lower` and treated as
    non-word characters.
  - Mappings that change the length, such as 'İ' to "i̇", are not
    modelled.
- `commands.py` (JSON reading and writing, the frozen-executable path
  logic, creating a missing file) is not part of this model.
  - The file is the `stored` field, and both of its lists are always
    present, so `data.get("apps", [])` and `setdefault` have nothing to
    supply.
- Records missing `"name"` or `"action"`, actions that are not strings, and
  a group without `"items"` are not modelled. They raise or fall back in
  Python, and the model's records always carry string fields.
- Gui.FastAccessGUI.ExecuteTarget: `os.startfile` is taken to succeed
  exactly on existing paths. Other OS failures and `webbrowser.open`
  failures are not modelled.
- Actions.ExecuteCommand: `webbrowser.open` and `os.startfile` are taken
  never to raise. In the code they are not inside a `try`, so such an
  exception would end the loop and skip the remaining targets.
- `run_action` (gui.py:155-157) is a single call of `execute_target` on the
  app's action, so it has no member of its own.
- Qt widget work is not modelled:
  - layout clearing and `deleteLater`;
  - button labels, object names and icons;
  - signal connections;
  - message box and console texts, which become result values.
- `main.py` is not modelled:
  - the listener thread;
  - `gui.apps` / `gui.groups` being shared with the listener, which keeps
    the old dicts after a reload rebinds them.
- Gui.FastAccessGUI.AddGroup: when a group name already exists, the
  button showing the old group stays in the grid and a second button is
  added, as in the code. `Consistent` therefore promises the grid layout
  only, not that the buttons match the dicts.
