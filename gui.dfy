/** The catalog window `FastAccessGUI` of `gui.py`: the apps and groups it
    holds, how a group item becomes something to open, running a group, the
    add/delete dialogs, and the two-column grid of buttons.

    Dialog answers are parameters (`None` when the dialog was cancelled),
    message boxes and console reports are results, the JSON file is the
    `stored` field, and every call to `webbrowser.open` / `os.startfile` is an
    `Opening` in the output. */
module Gui {
  import opened Wrappers
  import opened Text
  import opened Dicts
  import opened Platform

  /** An app record `{"name", "type", "action"}`. */
  datatype App = App(name: string, kind: string, action: string)

  /** A group item as the JSON file may hold it: a string (an app name, a URL
      or a path), a dict with optional `"action"` and `"type"` entries, or any
      other JSON value. */
  datatype Item =
    | TextItem(text: string)
    | DictItem(action: Option<string>, kind: Option<string>)
    | OtherItem

  /** A group record `{"name", "items"}`. */
  datatype Group = Group(name: string, items: seq<Item>)

  /** The contents of the commands file. */
  datatype Catalog = Catalog(apps: seq<App>, groups: seq<Group>)

  /** What a button in the scroll area runs when clicked. */
  datatype Shown = AppButton(app: App) | GroupButton(group: Group)

  /** A button and the grid cell it was placed in. */
  datatype Button = Button(shows: Shown, row: nat, col: nat)

  /** The console report of `resolve_item_to_targets` for an item it rejects. */
  datatype Rejection =
    | UnknownItem(text: string)
    | InvalidAction(item: Item)
    | MissingAction(item: Item)

  /** The outcome of the "Eliminar" dialogs: the information box about an
      empty catalog, a cancelled or blank answer, the warning about an
      unknown name, or the deletion. */
  datatype Deletion = NothingToDelete | Cancelled | NoSuchName(name: string) | Deleted(name: string)

  function AppName(a: App): string { a.name }

  function GroupName(g: Group): string { g.name }

  /** `t.lower().startswith(("http://", "https://"))`. */
  predicate IsWebUrl(t: string) {
    StartsWith(Lower(t), "http://") || StartsWith(Lower(t), "https://")
  }

  /** What `execute_target` does with a target. `os.startfile` succeeds
      exactly on the paths that exist. */
  function Open(target: string, fs: Paths): Opening {
    if IsWebUrl(target) then Browser(target)
    else if target in fs then Launch(target)
    else Failed(target)
  }

  /** The list `resolve_item_to_targets` returns for one item. */
  function Resolve(item: Item, apps: Dict<string, App>, fs: Paths): seq<string>
    requires Valid(apps)
  {
    match item
    case TextItem(s) =>
      if s in apps.vals then [apps.vals[s].action]
      else if IsWebUrl(s) then [s]
      else if s in fs then [s]
      else []
    case DictItem(action, kind) =>
      if action.None? || action.value == "" then []
      else if kind == Some("web") || kind == Some("app") then [action.value]
      else if IsWebUrl(action.value) || action.value in fs then [action.value]
      else []
    case OtherItem => []
  }

  /** The targets of a whole item list, item by item. */
  function GroupTargets(items: seq<Item>, apps: Dict<string, App>, fs: Paths): seq<string>
    requires Valid(apps)
    decreases |items|
  {
    if items == [] then []
    else GroupTargets(items[..|items| - 1], apps, fs) + Resolve(items[|items| - 1], apps, fs)
  }

  /** The console report `resolve_item_to_targets` prints for one item, if
      any: a string that is no app name, URL or existing path, a dict without
      an action, or a dict whose action is neither typed nor openable. */
  function Note(item: Item, apps: Dict<string, App>, fs: Paths): Option<Rejection>
    requires Valid(apps)
  {
    match item
    case TextItem(s) =>
      if s in apps.vals || IsWebUrl(s) || s in fs then None else Some(UnknownItem(s))
    case DictItem(action, kind) =>
      if action.None? || action.value == "" then Some(MissingAction(item))
      else if kind == Some("web") || kind == Some("app") || IsWebUrl(action.value) || action.value in fs then None
      else Some(InvalidAction(item))
    case OtherItem => None
  }

  /** The reports of a whole item list, in item order. */
  function GroupNotes(items: seq<Item>, apps: Dict<string, App>, fs: Paths): seq<Rejection>
    requires Valid(apps)
    decreases |items|
  {
    if items == [] then []
    else
      var note := Note(items[|items| - 1], apps, fs);
      GroupNotes(items[..|items| - 1], apps, fs) + (if note.Some? then [note.value] else [])
  }

  /** An item is reported exactly when it is a string or a dict that gives
      no target. */
  lemma NoteIff(item: Item, apps: Dict<string, App>, fs: Paths)
    requires Valid(apps)
    ensures Note(item, apps, fs).Some? <==> !item.OtherItem? && Resolve(item, apps, fs) == []
  {
  }

  /** A group reports nothing exactly when each of its items resolves or is
      neither a string nor a dict, and it reports at most once per item. */
  lemma {:induction false} GroupNotesEmpty(items: seq<Item>, apps: Dict<string, App>, fs: Paths)
    requires Valid(apps)
    ensures GroupNotes(items, apps, fs) == [] <==>
      forall i :: 0 <= i < |items| ==> items[i].OtherItem? || Resolve(items[i], apps, fs) != []
    ensures |GroupNotes(items, apps, fs)| <= |items|
    decreases |items|
  {
    if items != [] {
      var init := items[..|items| - 1];
      GroupNotesEmpty(init, apps, fs);
      NoteIff(items[|items| - 1], apps, fs);
      assert forall i :: 0 <= i < |init| ==> init[i] == items[i];
    }
  }

  /** Handling one more item appends that item's report, if any. */
  lemma NotesPrefixStep(items: seq<Item>, i: nat, apps: Dict<string, App>, fs: Paths)
    requires Valid(apps) && i < |items|
    ensures GroupNotes(items[..i + 1], apps, fs)
      == GroupNotes(items[..i], apps, fs) + (if Note(items[i], apps, fs).Some? then [Note(items[i], apps, fs).value] else [])
  {
    assert items[..i + 1][..i] == items[..i];
  }

  function OpenAll(targets: seq<string>, fs: Paths): (os: seq<Opening>)
    ensures |os| == |targets|
    ensures forall i :: 0 <= i < |os| ==> os[i] == Open(targets[i], fs)
  {
    seq(|targets|, i requires 0 <= i < |targets| => Open(targets[i], fs))
  }

  lemma OpenAllSnoc(targets: seq<string>, t: string, fs: Paths)
    ensures OpenAll(targets + [t], fs) == OpenAll(targets, fs) + [Open(t, fs)]
  {
  }

  lemma OpenAllAppend(a: seq<string>, b: seq<string>, fs: Paths)
    ensures OpenAll(a + b, fs) == OpenAll(a, fs) + OpenAll(b, fs)
  {
  }

  /** The targets of a concatenation are the targets of the parts, in order. */
  lemma {:induction false} GroupTargetsAppend(a: seq<Item>, b: seq<Item>, apps: Dict<string, App>, fs: Paths)
    requires Valid(apps)
    ensures GroupTargets(a + b, apps, fs) == GroupTargets(a, apps, fs) + GroupTargets(b, apps, fs)
    decreases |b|
  {
    if b == [] {
      assert a + b == a;
    } else {
      var b', x := b[..|b| - 1], b[|b| - 1];
      assert (a + b)[..|a + b| - 1] == a + b' && (a + b)[|a + b| - 1] == x;
      calc {
        GroupTargets(a + b, apps, fs);
        GroupTargets(a + b', apps, fs) + Resolve(x, apps, fs);
        { GroupTargetsAppend(a, b', apps, fs); }
        (GroupTargets(a, apps, fs) + GroupTargets(b', apps, fs)) + Resolve(x, apps, fs);
        GroupTargets(a, apps, fs) + (GroupTargets(b', apps, fs) + Resolve(x, apps, fs));
        GroupTargets(a, apps, fs) + GroupTargets(b, apps, fs);
      }
    }
  }

  /** Opening the targets of one more item appends that item's openings. */
  lemma OpenPrefixStep(items: seq<Item>, i: nat, apps: Dict<string, App>, fs: Paths)
    requires Valid(apps) && i < |items|
    ensures OpenAll(GroupTargets(items[..i + 1], apps, fs), fs)
      == OpenAll(GroupTargets(items[..i], apps, fs), fs) + OpenAll(Resolve(items[i], apps, fs), fs)
  {
    assert items[..i + 1][..i] == items[..i];
    OpenAllAppend(GroupTargets(items[..i], apps, fs), Resolve(items[i], apps, fs), fs);
  }

  /** A group has no target exactly when none of its items resolves, and it
      has at most one target per item. */
  lemma {:induction false} GroupTargetsEmpty(items: seq<Item>, apps: Dict<string, App>, fs: Paths)
    requires Valid(apps)
    ensures GroupTargets(items, apps, fs) == [] <==> forall i :: 0 <= i < |items| ==> Resolve(items[i], apps, fs) == []
    ensures |GroupTargets(items, apps, fs)| <= |items|
    decreases |items|
  {
    if items != [] {
      var init := items[..|items| - 1];
      GroupTargetsEmpty(init, apps, fs);
      assert forall i :: 0 <= i < |init| ==> init[i] == items[i];
    }
  }

  /** Opening the targets of the whole item list, and when that opens
      nothing. */
  lemma GroupOpenings(items: seq<Item>, apps: Dict<string, App>, fs: Paths)
    requires Valid(apps)
    ensures OpenAll(GroupTargets(items[..|items|], apps, fs), fs) == OpenAll(GroupTargets(items, apps, fs), fs)
    ensures OpenAll(GroupTargets(items, apps, fs), fs) == [] <==>
      forall i :: 0 <= i < |items| ==> Resolve(items[i], apps, fs) == []
  {
    assert items[..|items|] == items;
    GroupTargetsEmpty(items, apps, fs);
  }

  /** The group item list `add_group` builds from the pieces of the answer:
      every piece stripped, the blank ones dropped, the order kept. */
  function CleanPieces(pieces: seq<string>): (items: seq<string>)
    ensures |items| <= |pieces|
    ensures forall i :: 0 <= i < |items| ==> items[i] != [] && IsTrimmed(items[i])
    decreases |pieces|
  {
    if pieces == [] then []
    else
      var s := Strip(pieces[0]);
      (if s == [] then [] else [s]) + CleanPieces(pieces[1..])
  }

  /** A character that no piece contains is in no item either: stripping
      only removes characters. */
  lemma {:induction false} CleanPiecesAvoid(pieces: seq<string>, c: char)
    requires forall i :: 0 <= i < |pieces| ==> c !in pieces[i]
    ensures forall i :: 0 <= i < |CleanPieces(pieces)| ==> c !in CleanPieces(pieces)[i]
    decreases |pieces|
  {
    if pieces != [] {
      var s := Strip(pieces[0]);
      if c in s {
        StripChars(pieces[0], c);
      }
      CleanPiecesAvoid(pieces[1..], c);
      assert CleanPieces(pieces) == (if s == [] then [] else [s]) + CleanPieces(pieces[1..]);
    }
  }

  /** `[s.strip() for s in items_text.split(",") if s.strip()]`: no item is
      empty, none has surrounding whitespace, none contains a comma. */
  function ParseItems(text: string): (items: seq<string>)
    ensures forall i :: 0 <= i < |items| ==> items[i] != [] && IsTrimmed(items[i]) && ',' !in items[i]
  {
    var pieces := Split(text, ',');
    CleanPiecesAvoid(pieces, ',');
    CleanPieces(pieces)
  }

  /** Pieces that are already clean pass through unchanged. */
  lemma {:induction false} CleanPiecesClean(xs: seq<string>)
    requires forall i :: 0 <= i < |xs| ==> xs[i] != [] && IsTrimmed(xs[i])
    ensures CleanPieces(xs) == xs
    decreases |xs|
  {
    if xs != [] {
      StripTrimmed(xs[0]);
      CleanPiecesClean(xs[1..]);
    }
  }

  /** Writing clean items separated by commas and parsing them back gives
      the same items, in the same order. */
  lemma ParseItemsJoin(xs: seq<string>)
    requires forall i :: 0 <= i < |xs| ==> xs[i] != [] && IsTrimmed(xs[i]) && ',' !in xs[i]
    ensures ParseItems(Join(xs, ',')) == xs
  {
    if xs != [] {
      SplitJoin(xs, ',');
    }
    CleanPiecesClean(xs);
  }

  /** The k-th button sits in row k div 2, column k mod 2. */
  predicate OnGrid(buttons: seq<Button>) {
    forall k :: 0 <= k < |buttons| ==> buttons[k].row == k / 2 && buttons[k].col == k % 2
  }

  /** Advancing the column and wrapping after the second one moves from the
      cell of button n to the cell of button n + 1. */
  lemma NextCell(n: nat, row: nat, col: nat)
    requires row == n / 2 && col == n % 2
    ensures col + 1 > 1 ==> row + 1 == (n + 1) / 2 && 0 == (n + 1) % 2
    ensures col + 1 <= 1 ==> row == (n + 1) / 2 && col + 1 == (n + 1) % 2
  {
  }

  /** A button placed in the next free cell keeps the grid filled row by row. */
  lemma OnGridSnoc(buttons: seq<Button>, b: Button)
    requires OnGrid(buttons)
    requires b.row == |buttons| / 2 && b.col == |buttons| % 2
    ensures OnGrid(buttons + [b])
  {
  }

  /** The layout loops of `load_and_render_commands`: one button per app and
      then one per group, with `row` and `col` advanced after each button and
      the column wrapped after the second. */
  method Render(appList: seq<App>, groupList: seq<Group>) returns (bs: seq<Button>)
    ensures |bs| == |appList| + |groupList|
    ensures OnGrid(bs)
    ensures forall k :: 0 <= k < |appList| ==> bs[k].shows == AppButton(appList[k])
    ensures forall k :: 0 <= k < |groupList| ==> bs[|appList| + k].shows == GroupButton(groupList[k])
  {
    bs := [];
    var row, col := 0, 0;
    var i := 0;
    while i < |appList|
      invariant 0 <= i <= |appList|
      invariant |bs| == i && OnGrid(bs)
      invariant row == i / 2 && col == i % 2
      invariant forall k :: 0 <= k < i ==> bs[k].shows == AppButton(appList[k])
    {
      OnGridSnoc(bs, Button(AppButton(appList[i]), row, col));
      NextCell(i, row, col);
      bs := bs + [Button(AppButton(appList[i]), row, col)];
      col := col + 1;
      if col > 1 {
        col := 0;
        row := row + 1;
      }
      i := i + 1;
    }
    var j := 0;
    while j < |groupList|
      invariant 0 <= j <= |groupList|
      invariant |bs| == i + j && OnGrid(bs)
      invariant row == (i + j) / 2 && col == (i + j) % 2
      invariant forall k :: 0 <= k < i ==> bs[k].shows == AppButton(appList[k])
      invariant forall k :: 0 <= k < j ==> bs[i + k].shows == GroupButton(groupList[k])
    {
      OnGridSnoc(bs, Button(GroupButton(groupList[j]), row, col));
      NextCell(i + j, row, col);
      bs := bs + [Button(GroupButton(groupList[j]), row, col)];
      col := col + 1;
      if col > 1 {
        col := 0;
        row := row + 1;
      }
      j := j + 1;
    }
  }

  /** The buttons show every app and then every group, each in dict order. */
  ghost predicate Shows(buttons: seq<Button>, apps: Dict<string, App>, groups: Dict<string, Group>)
    requires Valid(apps) && Valid(groups)
  {
    && |buttons| == |apps.keys| + |groups.keys|
    && (forall k :: 0 <= k < |apps.keys| ==> buttons[k].shows == AppButton(apps.vals[apps.keys[k]]))
    && (forall k :: 0 <= k < |groups.keys| ==> buttons[|apps.keys| + k].shows == GroupButton(groups.vals[groups.keys[k]]))
  }

  /** The buttons laid out for the values of two dicts show those dicts. */
  lemma RenderShows(apps: Dict<string, App>, groups: Dict<string, Group>, appList: seq<App>, groupList: seq<Group>, bs: seq<Button>)
    requires Valid(apps) && Valid(groups) && appList == Values(apps) && groupList == Values(groups)
    requires |bs| == |appList| + |groupList|
    requires forall k :: 0 <= k < |appList| ==> bs[k].shows == AppButton(appList[k])
    requires forall k :: 0 <= k < |groupList| ==> bs[|appList| + k].shows == GroupButton(groupList[k])
    ensures Shows(bs, apps, groups)
  {
  }

  /** Reading the file into the two dicts and laying out their buttons. */
  method Load(c: Catalog) returns (apps: Dict<string, App>, groups: Dict<string, Group>, bs: seq<Button>)
    ensures apps == FromList(c.apps, AppName)
    ensures groups == FromList(c.groups, GroupName)
    ensures OnGrid(bs)
    ensures Shows(bs, apps, groups)
  {
    apps := FromList(c.apps, AppName);
    groups := FromList(c.groups, GroupName);
    var appList := Values(apps);
    var groupList := Values(groups);
    bs := Render(appList, groupList);
    RenderShows(apps, groups, appList, groupList, bs);
  }

  /** What `add_group` does to the file, the dict and the grid: the group is
      appended to the file and assigned in the dict, which agree, and its
      button goes to the next free cell. */
  method AppendGroup(c: Catalog, groups: Dict<string, Group>, buttons: seq<Button>, group: Group)
    returns (c': Catalog, groups': Dict<string, Group>, buttons': seq<Button>)
    requires groups == FromList(c.groups, GroupName) && OnGrid(buttons)
    ensures c' == Catalog(c.apps, c.groups + [group])
    ensures groups' == Put(groups, group.name, group)
    ensures groups' == FromList(c'.groups, GroupName)
    ensures buttons' == buttons + [Button(GroupButton(group), |buttons| / 2, |buttons| % 2)]
    ensures OnGrid(buttons')
  {
    var count := |buttons|;
    var button := Button(GroupButton(group), count / 2, count % 2);
    OnGridSnoc(buttons, button);
    FromListSnoc(c.groups, group, GroupName);
    c', groups', buttons' := Catalog(c.apps, c.groups + [group]), Put(groups, group.name, group), buttons + [button];
  }

  class FastAccessGUI {
    /** `self.apps`, keyed by name. */
    var apps: Dict<string, App>
    /** `self.groups`, keyed by name. */
    var groups: Dict<string, Group>
    /** The commands file. */
    var stored: Catalog
    /** The buttons of the scroll area, in the order they were added. */
    var buttons: seq<Button>

    /** The dicts in memory are always what reloading the file would give,
        and the buttons fill the grid row by row. */
    ghost predicate Consistent()
      reads this
    {
      && apps == FromList(stored.apps, AppName)
      && groups == FromList(stored.groups, GroupName)
      && OnGrid(buttons)
    }

    constructor(saved: Catalog)
      ensures stored == saved
      ensures Consistent()
      ensures Shows(buttons, apps, groups)
    {
      stored := saved;
      new;
      LoadAndRender();
    }

    /** `load_and_render_commands`: clear the grid, re-read both dicts from
        the file, and lay out one button per app and then one per group,
        advancing the column and wrapping after the second. */
    method LoadAndRender()
      modifies this
      ensures stored == old(stored)
      ensures apps == FromList(stored.apps, AppName)
      ensures groups == FromList(stored.groups, GroupName)
      ensures OnGrid(buttons)
      ensures Shows(buttons, apps, groups)
    {
      var a, g, bs := Load(stored);
      Assign(stored, a, g, bs);
    }

    /** `execute_target`: a target whose lower-cased form starts with
        `http://` or `https://` goes to the browser; anything else is handed
        to the operating system, which fails when the path does not exist. */
    method ExecuteTarget(target: string, fs: Paths) returns (e: Opening)
      ensures e.target == target
      ensures e.Browser? <==> IsWebUrl(target)
      ensures e.Launch? <==> !IsWebUrl(target) && target in fs
      ensures e == Open(target, fs)
    {
      if IsWebUrl(target) {
        e := Browser(target);
      } else if target in fs {
        e := Launch(target);
      } else {
        e := Failed(target);
      }
    }

    /** `resolve_item_to_targets`: at most one target per item. A string that
        is exactly an app's name gives that app's action, before any URL or
        path reading; otherwise it must be a URL or an existing path. A dict
        needs a non-empty action, taken unchecked when its type is `web` or
        `app` and otherwise only when it is a URL or an existing path. Each
        rejected string or dict is reported; other values are skipped
        silently. */
    method ResolveItemToTargets(item: Item, fs: Paths) returns (targets: seq<string>, note: Option<Rejection>)
      requires Valid(apps)
      ensures |targets| <= 1
      ensures targets == [] <==> note.Some? || item.OtherItem?
      ensures item.TextItem? && item.text in apps.vals ==> targets == [apps.vals[item.text].action]
      ensures item.TextItem? && item.text !in apps.vals ==>
        (targets != [] <==> IsWebUrl(item.text) || item.text in fs) && (targets != [] ==> targets == [item.text])
      ensures item.DictItem? ==>
        (targets != [] <==>
          item.action.Some? && item.action.value != ""
          && (item.kind == Some("web") || item.kind == Some("app") || IsWebUrl(item.action.value) || item.action.value in fs))
      ensures item.DictItem? && targets != [] ==> targets == [item.action.value]
      ensures note.Some? && item.TextItem? ==> note == Some(UnknownItem(item.text))
      ensures note.Some? && item.DictItem? ==> note == Some(if item.action.None? || item.action.value == "" then MissingAction(item) else InvalidAction(item))
      ensures targets == Resolve(item, apps, fs)
      ensures note == Note(item, apps, fs)
    {
      targets := [];
      note := None;
      match item
      case TextItem(s) =>
        if s in apps.vals {
          targets := targets + [apps.vals[s].action];
        } else if IsWebUrl(s) {
          targets := targets + [s];
        } else if s in fs {
          targets := targets + [s];
        } else {
          note := Some(UnknownItem(s));
        }
      case DictItem(action, kind) =>
        if action.Some? && action.value != "" {
          if kind == Some("web") || kind == Some("app") {
            targets := targets + [action.value];
          } else if IsWebUrl(action.value) || action.value in fs {
            targets := targets + [action.value];
          } else {
            note := Some(InvalidAction(item));
          }
        } else {
          note := Some(MissingAction(item));
        }
      case OtherItem =>
    }

    /** `run_group`: every target of every item is opened, in item order, and
        the "empty group" warning is shown exactly when no item resolved, even
        if every opening failed. */
    method RunGroup(group: Group, fs: Paths) returns (openings: seq<Opening>, notes: seq<Rejection>, warned: bool)
      requires Valid(apps)
      ensures openings == OpenAll(GroupTargets(group.items, apps, fs), fs)
      ensures notes == GroupNotes(group.items, apps, fs)
      ensures warned <==> forall i :: 0 <= i < |group.items| ==> Resolve(group.items[i], apps, fs) == []
      ensures warned <==> openings == []
    {
      openings, notes := RunItems(group.items, fs);
      GroupOpenings(group.items, apps, fs);
      warned := openings == [];
    }

    /** The `for item in items` loop of `run_group`: the openings and the
        reports of all items, in item order. The `executed` flag is set
        exactly when some opening happened. */
    method RunItems(items: seq<Item>, fs: Paths) returns (openings: seq<Opening>, notes: seq<Rejection>)
      requires Valid(apps)
      ensures openings == OpenAll(GroupTargets(items, apps, fs), fs)
      ensures notes == GroupNotes(items, apps, fs)
    {
      openings := [];
      notes := [];
      var executed := false;
      var i := 0;
      while i < |items|
        invariant 0 <= i <= |items|
        invariant openings == OpenAll(GroupTargets(items[..i], apps, fs), fs)
        invariant notes == GroupNotes(items[..i], apps, fs)
        invariant executed <==> openings != []
      {
        var more, note := RunItem(items[i], fs);
        OpenPrefixStep(items, i, apps, fs);
        NotesPrefixStep(items, i, apps, fs);
        openings := openings + more;
        notes := notes + (if note.Some? then [note.value] else []);
        executed := executed || more != [];
        i := i + 1;
      }
      assert items[..|items|] == items;
    }

    /** One pass of `run_group`'s outer loop: the item is resolved and each
        of its targets is opened. */
    method RunItem(item: Item, fs: Paths) returns (openings: seq<Opening>, note: Option<Rejection>)
      requires Valid(apps)
      ensures openings == OpenAll(Resolve(item, apps, fs), fs)
      ensures note == Note(item, apps, fs)
    {
      var targets;
      targets, note := ResolveItemToTargets(item, fs);
      openings := ExecuteEach(targets, fs);
    }

    /** The inner loop of `run_group`: each target of one item is opened in
        turn. */
    method ExecuteEach(targets: seq<string>, fs: Paths) returns (openings: seq<Opening>)
      ensures openings == OpenAll(targets, fs)
    {
      openings := [];
      var j := 0;
      while j < |targets|
        invariant 0 <= j <= |targets|
        invariant openings == OpenAll(targets[..j], fs)
      {
        var e := ExecuteTarget(targets[j], fs);
        assert targets[..j + 1] == targets[..j] + [targets[j]];
        OpenAllSnoc(targets[..j], targets[j], fs);
        openings := openings + [e];
        j := j + 1;
      }
      assert targets[..j] == targets;
    }

    /** `add_command`: nothing changes unless the name and the action are
        non-blank once stripped and no dialog was cancelled. Otherwise the
        stripped record is assigned to its name in memory, appended to the
        file, and the window is re-rendered from the file. */
    method AddCommand(nameAnswer: Option<string>, kindAnswer: Option<string>, actionAnswer: Option<string>)
      returns (added: Option<App>)
      requires Consistent()
      modifies this
      ensures Consistent()
      ensures added.Some? <==>
        nameAnswer.Some? && Strip(nameAnswer.value) != [] && kindAnswer.Some?
        && actionAnswer.Some? && Strip(actionAnswer.value) != []
      ensures added.None? ==>
        apps == old(apps) && groups == old(groups) && stored == old(stored) && buttons == old(buttons)
      ensures added.Some? ==>
        && added.value == App(Strip(nameAnswer.value), Strip(kindAnswer.value), Strip(actionAnswer.value))
        && stored == Catalog(old(stored.apps) + [added.value], old(stored.groups))
        && apps == Put(old(apps), added.value.name, added.value)
        && groups == old(groups)
        && Shows(buttons, apps, groups)
    {
      added := None;
      if nameAnswer.None? || Strip(nameAnswer.value) == [] {
        return;
      }
      if kindAnswer.None? {
        return;
      }
      if actionAnswer.None? || Strip(actionAnswer.value) == [] {
        return;
      }
      var app := App(Strip(nameAnswer.value), Strip(kindAnswer.value), Strip(actionAnswer.value));
      StoreApp(app);
      added := Some(app);
    }

    /** The second half of `add_command`: the app is assigned to its name in
        memory and appended to the file, and the window is re-rendered from
        the file, which gives the same dicts. */
    method StoreApp(app: App)
      requires Consistent()
      modifies this
      ensures Consistent()
      ensures stored == Catalog(old(stored.apps) + [app], old(stored.groups))
      ensures apps == Put(old(apps), app.name, app)
      ensures groups == old(groups)
      ensures Shows(buttons, apps, groups)
    {
      ghost var inMemory := Put(apps, app.name, app);
      FromListSnoc(stored.apps, app, AppName);
      stored := Catalog(stored.apps + [app], stored.groups);
      LoadAndRender();
      assert apps == inMemory;
    }

    /** `delete_command`: nothing changes when there is no app, when the
        answer is cancelled or blank, or when no app has the stripped name.
        Otherwise the name leaves the dict, every record with that name
        leaves the file, the others keep their order, and the window is
        re-rendered from the file. */
    method DeleteCommand(nameAnswer: Option<string>) returns (outcome: Deletion)
      requires Consistent()
      modifies this
      ensures Consistent()
      ensures outcome == NothingToDelete <==> old(apps).vals == map[]
      ensures outcome == Cancelled <==>
        old(apps).vals != map[] && (nameAnswer.None? || Strip(nameAnswer.value) == [])
      ensures outcome.NoSuchName? ==> outcome.name !in old(apps).vals
      ensures outcome.Deleted? ==> outcome.name in old(apps).vals
      ensures (outcome.NoSuchName? || outcome.Deleted?) ==>
        old(apps).vals != map[] && nameAnswer.Some? && outcome.name == Strip(nameAnswer.value) != []
      ensures !outcome.Deleted? ==>
        apps == old(apps) && groups == old(groups) && stored == old(stored) && buttons == old(buttons)
      ensures outcome.Deleted? ==>
        && apps == Remove(old(apps), outcome.name)
        && stored == Catalog(Drop(old(stored.apps), AppName, outcome.name), old(stored.groups))
        && groups == old(groups)
        && Shows(buttons, apps, groups)
    {
      if apps.vals == map[] {
        return NothingToDelete;
      }
      if nameAnswer.None? || Strip(nameAnswer.value) == [] {
        return Cancelled;
      }
      var name := Strip(nameAnswer.value);
      if name !in apps.vals {
        return NoSuchName(name);
      }
      ForgetApp(name);
      outcome := Deleted(name);
    }

    /** The second half of `delete_command`: the name leaves the dict, the
        records with that name leave the file, and the window is re-rendered
        from the file, which gives the same dicts. */
    method ForgetApp(name: string)
      requires Consistent()
      modifies this
      ensures Consistent()
      ensures apps == Remove(old(apps), name)
      ensures stored == Catalog(Drop(old(stored.apps), AppName, name), old(stored.groups))
      ensures groups == old(groups)
      ensures Shows(buttons, apps, groups)
    {
      apps := Remove(apps, name);
      ghost var inMemory := apps;
      FromListDrop(stored.apps, AppName, name);
      stored := stored.(apps := Drop(stored.apps, AppName, name));
      LoadAndRender();
      assert apps == inMemory;
    }

    /** `add_group`: nothing changes when the name is cancelled or blank or
        the items dialog is cancelled. Otherwise the group of parsed items is
        assigned to its stripped name in memory and appended to the file, and
        one button is appended to the grid at the next free cell, without a
        re-render. */
    method AddGroup(nameAnswer: Option<string>, itemsAnswer: Option<string>) returns (added: Option<Group>)
      requires Consistent()
      modifies this
      ensures Consistent()
      ensures added.Some? <==> nameAnswer.Some? && Strip(nameAnswer.value) != [] && itemsAnswer.Some?
      ensures added.None? ==>
        apps == old(apps) && groups == old(groups) && stored == old(stored) && buttons == old(buttons)
      ensures added.Some? ==>
        && added.value == Group(Strip(nameAnswer.value), TextItems(ParseItems(itemsAnswer.value)))
        && stored == Catalog(old(stored.apps), old(stored.groups) + [added.value])
        && groups == Put(old(groups), added.value.name, added.value)
        && apps == old(apps)
        && buttons == old(buttons) + [Button(GroupButton(added.value), |old(buttons)| / 2, |old(buttons)| % 2)]
    {
      added := None;
      if nameAnswer.None? || Strip(nameAnswer.value) == [] {
        return;
      }
      if itemsAnswer.None? {
        return;
      }
      var group := Group(Strip(nameAnswer.value), TextItems(ParseItems(itemsAnswer.value)));
      StoreGroup(group);
      added := Some(group);
    }

    /** The second half of `add_group`: the group is assigned to its name in
        memory and appended to the file, and its button goes to the next free
        cell of the grid. */
    method StoreGroup(group: Group)
      requires Consistent()
      modifies this
      ensures Consistent()
      ensures stored == Catalog(old(stored.apps), old(stored.groups) + [group])
      ensures groups == Put(old(groups), group.name, group)
      ensures apps == old(apps)
      ensures buttons == old(buttons) + [Button(GroupButton(group), |old(buttons)| / 2, |old(buttons)| % 2)]
    {
      var c, g, bs := AppendGroup(stored, groups, buttons, group);
      Assign(c, apps, g, bs);
    }

    /** Sets the whole state of the window in one step. */
    method Assign(c: Catalog, a: Dict<string, App>, g: Dict<string, Group>, bs: seq<Button>)
      modifies this
      ensures stored == c && apps == a && groups == g && buttons == bs
    {
      stored, apps, groups, buttons := c, a, g, bs;
    }

    /** `delete_group`: the same as `delete_command`, on groups. */
    method DeleteGroup(nameAnswer: Option<string>) returns (outcome: Deletion)
      requires Consistent()
      modifies this
      ensures Consistent()
      ensures outcome == NothingToDelete <==> old(groups).vals == map[]
      ensures outcome == Cancelled <==>
        old(groups).vals != map[] && (nameAnswer.None? || Strip(nameAnswer.value) == [])
      ensures outcome.NoSuchName? ==> outcome.name !in old(groups).vals
      ensures outcome.Deleted? ==> outcome.name in old(groups).vals
      ensures (outcome.NoSuchName? || outcome.Deleted?) ==>
        old(groups).vals != map[] && nameAnswer.Some? && outcome.name == Strip(nameAnswer.value) != []
      ensures !outcome.Deleted? ==>
        apps == old(apps) && groups == old(groups) && stored == old(stored) && buttons == old(buttons)
      ensures outcome.Deleted? ==>
        && groups == Remove(old(groups), outcome.name)
        && stored == Catalog(old(stored.apps), Drop(old(stored.groups), GroupName, outcome.name))
        && apps == old(apps)
        && Shows(buttons, apps, groups)
    {
      if groups.vals == map[] {
        return NothingToDelete;
      }
      if nameAnswer.None? || Strip(nameAnswer.value) == [] {
        return Cancelled;
      }
      var name := Strip(nameAnswer.value);
      if name !in groups.vals {
        return NoSuchName(name);
      }
      ForgetGroup(name);
      outcome := Deleted(name);
    }

    /** The second half of `delete_group`, as for `ForgetApp`. */
    method ForgetGroup(name: string)
      requires Consistent()
      modifies this
      ensures Consistent()
      ensures groups == Remove(old(groups), name)
      ensures stored == Catalog(old(stored.apps), Drop(old(stored.groups), GroupName, name))
      ensures apps == old(apps)
      ensures Shows(buttons, apps, groups)
    {
      groups := Remove(groups, name);
      ghost var inMemory := groups;
      FromListDrop(stored.groups, GroupName, name);
      stored := stored.(groups := Drop(stored.groups, GroupName, name));
      LoadAndRender();
      assert groups == inMemory;
    }
  }

  /** The string items of a group created in the dialog. */
  function TextItems(texts: seq<string>): (items: seq<Item>)
    ensures |items| == |texts|
    ensures forall i :: 0 <= i < |items| ==> items[i] == TextItem(texts[i])
  {
    seq(|texts|, i requires 0 <= i < |texts| => TextItem(texts[i]))
  }
}
