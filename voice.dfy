/** The command resolution in `voice.py`: the filler-word filter applied to
    each transcript and the app/group dispatch that follows it. Speech
    capture, recognition and text-to-speech stay outside: the transcript is
    an input, and every call to `run_action_fn`, `run_group_fn` and `speak`
    becomes a `Reaction` in the output. */
module Voice {
  import opened Wrappers
  import opened Text

  /** The alternatives of `\b(abrir|abre|abrirme|ir a|quiero|pon|ejecuta|lanza)\b`,
      in the order the regex engine tries them. */
  const Fillers: seq<string> := ["abrir", "abre", "abrirme", "ir a", "quiero", "pon", "ejecuta", "lanza"]

  const NotFound: string := "No encontré ese comando"
  const NotUnderstood: string := "No entendí lo que dijiste"

  /** `\b` at index `i`: exactly one of the characters around `i` is a word
      character (the ends of the string count as non-word). */
  predicate Boundary(s: string, i: nat)
    requires i <= |s|
  {
    (0 < i && IsWordChar(s[i - 1])) != (i < |s| && IsWordChar(s[i]))
  }

  /** The literal `t` occurs at `i` and is followed by `\b`. */
  predicate EndsWordAt(s: string, i: nat, t: string) {
    OccursAt(s, i, t) && Boundary(s, i + |t|)
  }

  /** `t` occurs at `i` as a whole word: `\b t \b`. */
  predicate WholeWordAt(s: string, i: nat, t: string)
    requires i <= |s|
  {
    Boundary(s, i) && EndsWordAt(s, i, t)
  }

  /** The alternation, tried from alternative `k` on: the first alternative
      that is present at `i` and followed by `\b` wins; a later one is
      tried only when an earlier one fails, with or without its trailing `\b`. */
  function TryAlternatives(s: string, i: nat, k: nat): (r: Option<nat>)
    requires k <= |Fillers|
    ensures r.Some? ==> k <= r.value < |Fillers| && EndsWordAt(s, i, Fillers[r.value])
    ensures r.Some? ==> forall j :: k <= j < r.value ==> !EndsWordAt(s, i, Fillers[j])
    ensures r.None? ==> forall j :: k <= j < |Fillers| ==> !EndsWordAt(s, i, Fillers[j])
    decreases |Fillers| - k
  {
    if k == |Fillers| then None
    else if EndsWordAt(s, i, Fillers[k]) then Some(k)
    else TryAlternatives(s, i, k + 1)
  }

  /** The whole pattern at index `i`: the index of the alternative that
      matches there, if any. */
  function MatchAt(s: string, i: nat): (r: Option<nat>)
    requires i <= |s|
    ensures r.Some? ==> r.value < |Fillers| && WholeWordAt(s, i, Fillers[r.value])
    ensures r.Some? ==> forall j :: 0 <= j < r.value ==> !WholeWordAt(s, i, Fillers[j])
    ensures r.None? ==> forall j :: 0 <= j < |Fillers| ==> !WholeWordAt(s, i, Fillers[j])
  {
    if Boundary(s, i) then TryAlternatives(s, i, 0) else None
  }

  /** Shape of the eight tokens: what the boundary argument below needs. */
  lemma FillerShape(k: nat)
    requires k < |Fillers|
    ensures |Fillers[k]| >= 3
    ensures IsWordChar(Fillers[k][0]) && Fillers[k][0] in "aiqpel"
    ensures Fillers[k][0] == 'a' ==> Fillers[k][1] == 'b'
    ensures k != 3 ==> forall m :: 0 <= m < |Fillers[k]| ==> IsWordChar(Fillers[k][m])
    ensures k == 3 ==> Fillers[k] == "ir a"
  {
  }

  /** The pattern cannot match at a character no token starts with. */
  lemma NoTokenStartsWith(s: string, i: nat)
    requires i < |s| && s[i] !in "aiqpel"
    ensures MatchAt(s, i) == None
  {
    forall k | 0 <= k < |Fillers| ensures !OccursAt(s, i, Fillers[k]) {
      FillerShape(k);
    }
  }

  /** `re.sub(pattern, "", s)` from index `i` on: scanning left to right, a
      match is dropped and scanning resumes after it; otherwise one
      character is kept. `\b` is always judged on the original string. */
  function RemoveFrom(s: string, i: nat): string
    requires i <= |s|
    decreases |s| - i
  {
    if i == |s| then ""
    else match MatchAt(s, i)
      case Some(k) =>
        FillerShape(k);
        RemoveFrom(s, i + |Fillers[k]|)
      case None => [s[i]] + RemoveFrom(s, i + 1)
  }

  /** A match is dropped and the scan resumes right after it. */
  lemma SkipMatch(s: string, i: nat, k: nat)
    requires i <= |s| && MatchAt(s, i) == Some(k)
    ensures i + |Fillers[k]| <= |s|
    ensures RemoveFrom(s, i) == RemoveFrom(s, i + |Fillers[k]|)
  {
    // One alternative at a time, so that each token is a known literal.
    assert k < 8;
    if k == 0 { assert OccursAt(s, i, Fillers[0]); }
    else if k == 1 { assert OccursAt(s, i, Fillers[1]); }
    else if k == 2 { assert OccursAt(s, i, Fillers[2]); }
    else if k == 3 { assert OccursAt(s, i, Fillers[3]); }
    else if k == 4 { assert OccursAt(s, i, Fillers[4]); }
    else if k == 5 { assert OccursAt(s, i, Fillers[5]); }
    else if k == 6 { assert OccursAt(s, i, Fillers[6]); }
    else { assert k == 7 && OccursAt(s, i, Fillers[7]); }
  }

  function RemoveFillers(s: string): string {
    RemoveFrom(s, 0)
  }

  /** `re.sub(...).strip()` at voice.py:25-29. */
  function Filter(command: string): string {
    Strip(RemoveFillers(command))
  }

  /** Where the pattern does not match, one character is kept. */
  lemma KeepChar(s: string, i: nat)
    requires i < |s| && MatchAt(s, i) == None
    ensures RemoveFrom(s, i) == [s[i]] + RemoveFrom(s, i + 1)
  {
  }

  /** A stretch where the pattern matches nowhere is copied unchanged. */
  lemma {:induction false} KeepStretch(s: string, i: nat, n: nat)
    requires i <= n <= |s|
    requires forall p :: i <= p < n ==> MatchAt(s, p) == None
    ensures RemoveFrom(s, i) == s[i..n] + RemoveFrom(s, n)
    decreases n - i
  {
    if i < n {
      KeepChar(s, i);
      KeepStretch(s, i + 1, n);
      ConsSlice(s, i, n, RemoveFrom(s, n));
    }
  }

  /** Peeling the first character off a slice, in front of any tail. */
  lemma ConsSlice(s: string, i: nat, n: nat, tail: string)
    requires i < n <= |s|
    ensures [s[i]] + (s[i + 1..n] + tail) == s[i..n] + tail
  {
    assert s[i..n] == [s[i]] + s[i + 1..n];
  }

  /** Position `p` lies inside a whole-word occurrence of some filler token. */
  ghost predicate Covered(s: string, p: nat) {
    exists i: nat, k: nat :: i <= p && k < |Fillers| && p < i + |Fillers[k]| && i <= |s|
                             && WholeWordAt(s, i, Fillers[k])
  }

  /** The characters of `s` from `from` on that no whole-word filler covers. */
  ghost function Uncovered(s: string, from: nat): string
    requires from <= |s|
    decreases |s| - from
  {
    if from == |s| then ""
    else (if Covered(s, from) then "" else [s[from]]) + Uncovered(s, from + 1)
  }

  /** A `\b` strictly inside an occurrence of a token only happens inside
      "ir a", around its space. */
  lemma InnerBoundary(s: string, i: nat, k: nat, m: nat)
    requires k < |Fillers| && OccursAt(s, i, Fillers[k])
    requires 0 < m < |Fillers[k]| && Boundary(s, i + m)
    ensures k == 3 && (m == 2 || m == 3)
  {
    FillerShape(k);
    var t := Fillers[k];
    assert s[i + m - 1] == t[m - 1] && s[i + m] == t[m] by {
      assert s[i..i + |t|][m - 1] == s[i + m - 1];
      assert s[i..i + |t|][m] == s[i + m];
    }
    if k == 3 {
      assert m != 1 by { assert t[0] == 'i' && t[1] == 'r'; }
    }
  }

  /** At most one token is a whole word at a given index. */
  lemma SameStart(s: string, i: nat, k1: nat, k2: nat)
    requires i <= |s| && k1 < |Fillers| && k2 < |Fillers|
    requires WholeWordAt(s, i, Fillers[k1]) && WholeWordAt(s, i, Fillers[k2])
    ensures |Fillers[k1]| == |Fillers[k2]|
  {
    if |Fillers[k1]| < |Fillers[k2]| {
      InnerBoundary(s, i, k2, |Fillers[k1]|);
      FillerShape(k1);
      assert false;
    } else if |Fillers[k2]| < |Fillers[k1]| {
      InnerBoundary(s, i, k1, |Fillers[k2]|);
      FillerShape(k2);
      assert false;
    }
  }

  /** Two whole-word tokens never overlap unless they start together. */
  lemma Disjoint(s: string, i: nat, k: nat, j: nat, k2: nat)
    requires i <= j <= |s| && k < |Fillers| && k2 < |Fillers|
    requires WholeWordAt(s, i, Fillers[k]) && WholeWordAt(s, j, Fillers[k2])
    ensures j == i || i + |Fillers[k]| <= j
  {
    if i < j < i + |Fillers[k]| {
      InnerBoundary(s, i, k, j - i);
      TokenStart(s, j, k2);
      IrAEnd(s, i);
      assert false;
    }
  }

  /** A token starts with a word character, and an "a" that starts one is
      followed by "b". */
  lemma TokenStart(s: string, j: nat, k: nat)
    requires k < |Fillers| && OccursAt(s, j, Fillers[k])
    ensures j + 1 < |s| && IsWordChar(s[j]) && (s[j] == 'a' ==> s[j + 1] == 'b')
  {
    FillerShape(k);
    var t := Fillers[k];
    assert s[j] == t[0] && s[j + 1] == t[1] by {
      assert s[j..j + |t|][0] == s[j] && s[j..j + |t|][1] == s[j + 1];
    }
  }

  /** Inside a whole-word "ir a": a space, then an "a" that ends the word. */
  lemma IrAEnd(s: string, i: nat)
    requires EndsWordAt(s, i, Fillers[3])
    ensures s[i + 2] == ' ' && s[i + 3] == 'a' && (i + 4 < |s| ==> !IsWordChar(s[i + 4]))
  {
    var t := Fillers[3];
    assert t == "ir a";
    assert s[i + 2] == t[2] && s[i + 3] == t[3] by {
      assert s[i..i + 4][2] == s[i + 2] && s[i..i + 4][3] == s[i + 3];
    }
  }

  /** No whole-word occurrence starting before `i` reaches past `i`. */
  ghost predicate NoneStraddles(s: string, i: nat) {
    forall j: nat, k: nat :: j < i && k < |Fillers| && j <= |s| && WholeWordAt(s, j, Fillers[k])
                             ==> j + |Fillers[k]| <= i
  }

  lemma {:induction false} UncoveredSkip(s: string, i: nat, n: nat)
    requires i <= n <= |s|
    requires forall p :: i <= p < n ==> Covered(s, p)
    ensures Uncovered(s, i) == Uncovered(s, n)
    decreases n - i
  {
    if i < n {
      UncoveredSkip(s, i, n - 1);
      UncoveredDrop(s, n - 1);
    }
  }

  lemma UncoveredKeep(s: string, i: nat)
    requires i < |s| && !Covered(s, i)
    ensures Uncovered(s, i) == [s[i]] + Uncovered(s, i + 1)
  {
  }

  lemma UncoveredDrop(s: string, i: nat)
    requires i < |s| && Covered(s, i)
    ensures Uncovered(s, i) == Uncovered(s, i + 1)
  {
  }

  /** Where the pattern does not match, the character is not covered. */
  lemma NoMatchStep(s: string, i: nat)
    requires i < |s| && NoneStraddles(s, i) && MatchAt(s, i).None?
    ensures !Covered(s, i) && NoneStraddles(s, i + 1)
  {
    if Covered(s, i) {
      assert false;
    }
  }

  /** A match covers its whole span and leaves no occurrence straddling its end. */
  lemma MatchStep(s: string, i: nat, k: nat, n: nat)
    requires i <= |s| && NoneStraddles(s, i) && k < |Fillers| && WholeWordAt(s, i, Fillers[k])
    requires n == i + |Fillers[k]|
    ensures n <= |s|
    ensures NoneStraddles(s, n)
    ensures Uncovered(s, i) == Uncovered(s, n)
  {
    MatchCovers(s, i, k, n);
    MatchEndsClean(s, i, k, n);
  }

  lemma MatchCovers(s: string, i: nat, k: nat, n: nat)
    requires i <= |s| && k < |Fillers| && WholeWordAt(s, i, Fillers[k])
    requires n == i + |Fillers[k]|
    ensures n <= |s|
    ensures Uncovered(s, i) == Uncovered(s, n)
  {
    assert OccursAt(s, i, Fillers[k]);
    forall p | i <= p < n ensures Covered(s, p) {
      assert i <= p && k < |Fillers| && p < i + |Fillers[k]| && i <= |s| && WholeWordAt(s, i, Fillers[k]);
    }
    UncoveredSkip(s, i, n);
  }

  lemma MatchEndsClean(s: string, i: nat, k: nat, n: nat)
    requires i <= |s| && NoneStraddles(s, i) && k < |Fillers| && WholeWordAt(s, i, Fillers[k])
    requires n == i + |Fillers[k]|
    ensures NoneStraddles(s, n)
  {
    forall j: nat, k2: nat | j < n && k2 < |Fillers| && j <= |s| && WholeWordAt(s, j, Fillers[k2])
      ensures j + |Fillers[k2]| <= n
    {
      if i <= j {
        Disjoint(s, i, k, j, k2);
        SameStart(s, i, k, k2);
      }
    }
  }

  lemma {:induction false} RemoveFromUncovered(s: string, i: nat)
    requires i <= |s| && NoneStraddles(s, i)
    ensures RemoveFrom(s, i) == Uncovered(s, i)
    decreases |s| - i
  {
    if i < |s| {
      match MatchAt(s, i)
      case None =>
        NoMatchStep(s, i);
        RemoveFromUncovered(s, i + 1);
        KeepStep(s, i);
      case Some(k) =>
        FillerShape(k);
        var n := i + |Fillers[k]|;
        MatchStep(s, i, k, n);
        RemoveFromUncovered(s, n);
        SkipStep(s, i, k, n);
    }
  }

  lemma KeepStep(s: string, i: nat)
    requires i < |s| && MatchAt(s, i) == None && !Covered(s, i)
    requires RemoveFrom(s, i + 1) == Uncovered(s, i + 1)
    ensures RemoveFrom(s, i) == Uncovered(s, i)
  {
    KeepChar(s, i);
    UncoveredKeep(s, i);
  }

  lemma SkipStep(s: string, i: nat, k: nat, n: nat)
    requires i <= |s| && MatchAt(s, i) == Some(k) && n == i + |Fillers[k]| <= |s|
    requires Uncovered(s, i) == Uncovered(s, n) && RemoveFrom(s, n) == Uncovered(s, n)
    ensures RemoveFrom(s, i) == Uncovered(s, i)
  {
    SkipMatch(s, i, k);
  }

  /** What the substitution leaves is exactly the characters that are not
      part of a whole-word occurrence of a filler token: a token inside a
      longer word is kept, and nothing else is removed. */
  lemma RemoveFillersExactly(s: string)
    ensures RemoveFillers(s) == Uncovered(s, 0)
  {
    RemoveFromUncovered(s, 0);
  }

  /** The cleaned command is the text outside every whole-word filler
      occurrence, with its surrounding whitespace cut off. */
  lemma FilterExactly(command: string)
    ensures Filter(command) == Strip(Uncovered(command, 0))
  {
    RemoveFillersExactly(command);
  }
}

/** The dispatch loops of `voice_listener` (voice.py:31-50). The app and group
    values are passed through untouched, so they are type parameters. */
module Dispatch {
  import opened Wrappers
  import opened Text
  import opened Dicts
  import Voice

  /** What one utterance makes the listener do, in order: call
      `run_action_fn`, call `run_group_fn`, or `speak` a sentence. */
  datatype Reaction<A, G> = RunApp(app: A) | RunGroup(group: G) | Say(text: string)

  /** `name.lower() in command`. */
  predicate Mentions(command: string, name: string) {
    Contains(command, Lower(name))
  }

  /** The index of the first name, in iteration order, that the command
      mentions. */
  function FirstMentioned(command: string, names: seq<string>): (r: Option<nat>)
    ensures r.Some? ==> r.value < |names| && Mentions(command, names[r.value])
    ensures r.Some? ==> forall j :: 0 <= j < r.value ==> !Mentions(command, names[j])
    ensures r.None? <==> forall j :: 0 <= j < |names| ==> !Mentions(command, names[j])
    decreases |names|
  {
    if names == [] then None
    else if Mentions(command, names[0]) then Some(0)
    else match FirstMentioned(command, names[1..])
      case Some(j) => Some(j + 1)
      case None => None
  }

  /** The app loop's contribution: run the first app whose name the command
      mentions and announce it, or nothing. */
  function AppPart<A, G>(command: string, apps: Dict<string, A>): seq<Reaction<A, G>>
    requires Valid(apps)
  {
    match FirstMentioned(command, apps.keys)
      case Some(i) => [RunApp(apps.vals[apps.keys[i]]), Say("Ejecutando " + apps.keys[i])]
      case None => []
  }

  /** The group loop's contribution, chosen the same way among the groups. */
  function GroupPart<A, G>(command: string, groups: Dict<string, G>): seq<Reaction<A, G>>
    requires Valid(groups)
  {
    match FirstMentioned(command, groups.keys)
      case Some(i) => [RunGroup(groups.vals[groups.keys[i]]), Say("Ejecutando grupo " + groups.keys[i])]
      case None => []
  }

  /** The apology, spoken only when neither scan found a name. */
  function Apology<A, G>(command: string, apps: Dict<string, A>, groups: Dict<string, G>): seq<Reaction<A, G>>
  {
    if FirstMentioned(command, apps.keys).None? && FirstMentioned(command, groups.keys).None? then [Say(Voice.NotFound)] else []
  }

  /** The reactions to a cleaned command: the app part, then the group part
      (scanned whether or not an app matched), then the apology when
      neither matched. */
  function Reactions<A, G>(command: string, apps: Dict<string, A>, groups: Dict<string, G>): seq<Reaction<A, G>>
    requires Valid(apps) && Valid(groups)
  {
    AppPart(command, apps) + GroupPart(command, groups) + Apology(command, apps, groups)
  }

  /** The two `for` loops with `break` and the `ejecutado` flag. */
  method Dispatch<A, G>(command: string, apps: Dict<string, A>, groups: Dict<string, G>)
    returns (out: seq<Reaction<A, G>>)
    requires Valid(apps) && Valid(groups)
    ensures out == Reactions(command, apps, groups)
  {
    var executed := false;
    out := [];
    var i := 0;
    while i < |apps.keys|
      invariant 0 <= i <= |apps.keys|
      invariant forall j :: 0 <= j < i ==> !Mentions(command, apps.keys[j])
      invariant !executed && out == []
    {
      var name := apps.keys[i];
      if Mentions(command, name) {
        out := out + [RunApp(apps.vals[name]), Say("Ejecutando " + name)];
        executed := true;
        break;
      }
      i := i + 1;
    }
    ghost var appFound := executed;
    if executed {
      assert FirstMentioned(command, apps.keys) == Some(i);
    }
    assert out == AppPart<A, G>(command, apps);
    assert appFound <==> FirstMentioned(command, apps.keys).Some?;
    ghost var appPart := out;
    ghost var groupFound := false;
    i := 0;
    while i < |groups.keys|
      invariant 0 <= i <= |groups.keys|
      invariant forall j :: 0 <= j < i ==> !Mentions(command, groups.keys[j])
      invariant out == appPart && !groupFound && executed == appFound
    {
      var name := groups.keys[i];
      if Mentions(command, name) {
        out := out + [RunGroup(groups.vals[name]), Say("Ejecutando grupo " + name)];
        executed := true;
        groupFound := true;
        break;
      }
      i := i + 1;
    }
    if groupFound {
      assert FirstMentioned(command, groups.keys) == Some(i);
    }
    assert out == appPart + GroupPart<A, G>(command, groups);
    assert executed <==> appFound || FirstMentioned(command, groups.keys).Some?;
    if !executed {
      out := out + [Say(Voice.NotFound)];
    }
  }

  /** One pass of the listening loop after recognition: lower-case the
      transcript, filter it, dispatch. A failed recognition (`None`) is
      answered with the "not understood" sentence. */
  method Respond<A, G>(transcript: Option<string>, apps: Dict<string, A>, groups: Dict<string, G>)
    returns (out: seq<Reaction<A, G>>)
    requires Valid(apps) && Valid(groups)
    ensures transcript.None? ==> out == [Say(Voice.NotUnderstood)]
    ensures transcript.Some? ==> out == Reactions(Voice.Filter(Lower(transcript.value)), apps, groups)
  {
    if transcript.None? {
      out := [Say(Voice.NotUnderstood)];
    } else {
      var command := Lower(transcript.value);
      var clean := Voice.Filter(command);
      out := Dispatch(clean, apps, groups);
    }
  }

  /** A name longer than the command is never mentioned by it: containment
      is one-directional, a command that is part of a name does not match it. */
  lemma LongerNameNotMentioned(command: string, name: string)
    requires |name| > |command|
    ensures !Mentions(command, name)
  {
    ContainsIff(command, Lower(name));
  }

  /** An app is run exactly when some app name is mentioned, and a group is
      run exactly when some group name is mentioned, independently of each
      other; the apology is spoken exactly when neither happens. */
  lemma {:induction false} ReactionsShape<A, G>(command: string, apps: Dict<string, A>, groups: Dict<string, G>)
    requires Valid(apps) && Valid(groups)
    ensures var r := Reactions(command, apps, groups);
      && ((exists i :: 0 <= i < |r| && r[i].RunApp?) <==> exists j :: 0 <= j < |apps.keys| && Mentions(command, apps.keys[j]))
      && ((exists i :: 0 <= i < |r| && r[i].RunGroup?) <==> exists j :: 0 <= j < |groups.keys| && Mentions(command, groups.keys[j]))
      && (Say(Voice.NotFound) in r <==>
            (forall j :: 0 <= j < |apps.keys| ==> !Mentions(command, apps.keys[j]))
            && (forall j :: 0 <= j < |groups.keys| ==> !Mentions(command, groups.keys[j])))
  {
    AppRunIff(command, apps, groups);
    GroupRunIff(command, apps, groups);
    ApologyIff(command, apps, groups);
  }

  lemma AppRunIff<A, G>(command: string, apps: Dict<string, A>, groups: Dict<string, G>)
    requires Valid(apps) && Valid(groups)
    ensures var r := Reactions(command, apps, groups);
      (exists i :: 0 <= i < |r| && r[i].RunApp?) <==> FirstMentioned(command, apps.keys).Some?
  {
    var r := Reactions(command, apps, groups);
    var rest := GroupPart<A, G>(command, groups) + Apology<A, G>(command, apps, groups);
    PartsShape<A, G>(command, apps, groups);
    assert r == AppPart<A, G>(command, apps) + rest;
    if FirstMentioned(command, apps.keys).Some? {
      assert r[0].RunApp?;
    } else {
      forall i | 0 <= i < |r| ensures !r[i].RunApp? {
        assert r[i] in rest;
      }
    }
  }

  lemma GroupRunIff<A, G>(command: string, apps: Dict<string, A>, groups: Dict<string, G>)
    requires Valid(apps) && Valid(groups)
    ensures var r := Reactions(command, apps, groups);
      (exists i :: 0 <= i < |r| && r[i].RunGroup?) <==> FirstMentioned(command, groups.keys).Some?
  {
    var r := Reactions(command, apps, groups);
    var appPart := AppPart<A, G>(command, apps);
    var groupPart := GroupPart<A, G>(command, groups);
    PartsShape<A, G>(command, apps, groups);
    assert r == appPart + groupPart + Apology<A, G>(command, apps, groups);
    if FirstMentioned(command, groups.keys).Some? {
      assert r[|appPart|] == groupPart[0];
    } else {
      forall i | 0 <= i < |r| ensures !r[i].RunGroup? {
        assert r[i] in appPart || r[i] in Apology<A, G>(command, apps, groups);
      }
    }
  }

  lemma ApologyIff<A, G>(command: string, apps: Dict<string, A>, groups: Dict<string, G>)
    requires Valid(apps) && Valid(groups)
    ensures Say(Voice.NotFound) in Reactions(command, apps, groups) <==>
      FirstMentioned(command, apps.keys).None? && FirstMentioned(command, groups.keys).None?
  {
    PartsShape<A, G>(command, apps, groups);
    assert Reactions(command, apps, groups)
      == AppPart<A, G>(command, apps) + GroupPart<A, G>(command, groups) + Apology<A, G>(command, apps, groups);
  }

  /** What each part holds: the app part runs no group and the group part no
      app, neither contains the apology, and each is empty exactly when its
      scan found nothing. */
  lemma PartsShape<A, G>(command: string, apps: Dict<string, A>, groups: Dict<string, G>)
    requires Valid(apps) && Valid(groups)
    ensures forall x :: x in AppPart<A, G>(command, apps) ==> !x.RunGroup? && x != Say(Voice.NotFound)
    ensures forall x :: x in GroupPart<A, G>(command, groups) ==> !x.RunApp? && x != Say(Voice.NotFound)
    ensures FirstMentioned(command, apps.keys).Some? <==> AppPart<A, G>(command, apps) != []
    ensures FirstMentioned(command, groups.keys).Some? <==> GroupPart<A, G>(command, groups) != []
    ensures AppPart<A, G>(command, apps) != [] ==> AppPart<A, G>(command, apps)[0].RunApp?
    ensures GroupPart<A, G>(command, groups) != [] ==> GroupPart<A, G>(command, groups)[0].RunGroup?
  {
    forall name: string ensures "Ejecutando " + name != Voice.NotFound
                        && "Ejecutando grupo " + name != Voice.NotFound {
      assert ("Ejecutando " + name)[0] == 'E';
      assert ("Ejecutando grupo " + name)[0] == 'E';
    }
  }

  /** At most one app and at most one group are run per utterance. */
  lemma AtMostOneEach<A, G>(command: string, apps: Dict<string, A>, groups: Dict<string, G>)
    requires Valid(apps) && Valid(groups)
    ensures var r := Reactions(command, apps, groups);
      && (forall i, j :: 0 <= i < j < |r| && r[i].RunApp? ==> !r[j].RunApp?)
      && (forall i, j :: 0 <= i < j < |r| && r[i].RunGroup? ==> !r[j].RunGroup?)
  {
  }

  /** The app run is the first app, in iteration order, whose lower-cased
      name occurs in the command, and it is run before anything else. */
  lemma FirstAppRuns<A, G>(command: string, apps: Dict<string, A>, groups: Dict<string, G>, i: nat)
    requires Valid(apps) && Valid(groups)
    requires i < |apps.keys| && Mentions(command, apps.keys[i])
    requires forall j :: 0 <= j < i ==> !Mentions(command, apps.keys[j])
    ensures var r := Reactions(command, apps, groups);
      && r[..2] == [RunApp(apps.vals[apps.keys[i]]), Say("Ejecutando " + apps.keys[i])]
      && forall j :: 0 <= j < |r| && r[j].RunApp? ==> r[j].app == apps.vals[apps.keys[i]]
  {
    assert FirstMentioned(command, apps.keys) == Some(i);
    var r := Reactions(command, apps, groups);
    var groupPart := GroupPart<A, G>(command, groups);
    assert r == AppPart(command, apps) + groupPart;
    GroupPartRunsNoApp<A, G>(command, groups);
  }

  lemma GroupPartRunsNoApp<A, G>(command: string, groups: Dict<string, G>)
    requires Valid(groups)
    ensures forall j :: 0 <= j < |GroupPart<A, G>(command, groups)| ==> !GroupPart<A, G>(command, groups)[j].RunApp?
  {
  }

  /** The group run is chosen the same way among the groups, and the group
      scan still happens after an app has run, so one utterance can start an
      app and a group. */
  lemma FirstGroupRuns<A, G>(command: string, apps: Dict<string, A>, groups: Dict<string, G>, i: nat)
    requires Valid(apps) && Valid(groups)
    requires i < |groups.keys| && Mentions(command, groups.keys[i])
    requires forall j :: 0 <= j < i ==> !Mentions(command, groups.keys[j])
    ensures var r := Reactions(command, apps, groups);
      var at := if FirstMentioned(command, apps.keys).Some? then 2 else 0;
      && |r| == at + 2
      && r[at..] == [RunGroup(groups.vals[groups.keys[i]]), Say("Ejecutando grupo " + groups.keys[i])]
  {
    assert FirstMentioned(command, groups.keys) == Some(i);
    var appPart := AppPart<A, G>(command, apps);
    var groupPart := GroupPart<A, G>(command, groups);
    assert |appPart| == if FirstMentioned(command, apps.keys).Some? then 2 else 0;
    assert Reactions(command, apps, groups) == appPart + groupPart;
    assert (appPart + groupPart)[|appPart|..] == groupPart;
  }
}
