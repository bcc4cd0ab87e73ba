/** Worked cases of the rules above, one transcript or item at a time. */
module Examples {
  import opened Wrappers
  import opened Text
  import opened Dicts
  import opened Voice
  import opened Dispatch
  import opened Gui

  /** The pattern never matches between two word characters. */
  lemma NoMatchInsideWord(s: string, i: nat)
    requires 0 < i < |s| && IsWordChar(s[i - 1]) && IsWordChar(s[i])
    ensures MatchAt(s, i) == None
  {
  }

  /** ... nor anywhere inside a run of word characters. */
  lemma NoMatchInsideRun(s: string, a: nat, b: nat)
    requires 0 < a <= b <= |s|
    requires forall p :: a - 1 <= p < b ==> IsWordChar(s[p])
    ensures forall p :: a <= p < b ==> MatchAt(s, p) == None
  {
    forall p | a <= p < b ensures MatchAt(s, p) == None {
      NoMatchInsideWord(s, p);
    }
  }

  /** No token starts with an "a" that is not followed by "b". */
  lemma NoAbAt(s: string, i: nat)
    requires i + 1 < |s| && s[i] == 'a' && s[i + 1] != 'b'
    ensures MatchAt(s, i) == None
  {
    forall k | 0 <= k < |Fillers| ensures !OccursAt(s, i, Fillers[k]) {
      FillerShape(k);
      if i + |Fillers[k]| <= |s| {
        assert s[i..i + |Fillers[k]|][0] == s[i] && s[i..i + |Fillers[k]|][1] == s[i + 1];
      }
    }
  }

  /** Where the pattern matches nowhere up to the end, the rest is kept. */
  lemma KeepToEnd(s: string, i: nat)
    requires i <= |s|
    requires forall p :: i <= p < |s| ==> MatchAt(s, p) == None
    ensures RemoveFrom(s, i) == s[i..]
  {
    KeepStretch(s, i, |s|);
    assert s[i..|s|] == s[i..];
  }

  /** A space and then a word running to the end, neither of which starts a
      token, are kept as they are. */
  lemma KeepSpacedWord(s: string, i: nat)
    requires i + 1 < |s| && s[i] == ' ' && s[i + 1] !in "aiqpel"
    requires forall p :: i + 1 <= p < |s| ==> IsWordChar(s[p])
    ensures RemoveFrom(s, i) == s[i..]
  {
    NoTokenStartsWith(s, i);
    NoTokenStartsWith(s, i + 1);
    NoMatchInsideRun(s, i + 2, |s|);
    KeepToEnd(s, i);
  }

  /** `Filter` unfolded once on a symbolic string. The `Filter*` examples
      below call it so that the solver never unfolds `Filter` on a literal
      transcript, which is far more expensive. */
  lemma FilterOf(s: string, r: string)
    requires RemoveFrom(s, 0) == r
    ensures Filter(s) == Strip(r)
  {
  }

  lemma SpotifySpaces()
    ensures LeadingSpaces(" spotify") == 1 && TrailingSpaces("spotify") == 0
  {
    assert " spotify"[1..] == "spotify";
  }

  lemma StripSpotify()
    ensures Strip(" spotify") == "spotify"
  {
    SpotifySpaces();
    assert " spotify"[1..] == "spotify";
  }

  const OpenSpotify := "abrir spotify"

  lemma OpenSpotifyHead()
    ensures RemoveFrom(OpenSpotify, 0) == RemoveFrom(OpenSpotify, 5)
  {
    assert MatchAt(OpenSpotify, 0) == Some(0);
    SkipMatch(OpenSpotify, 0, 0);
  }

  lemma OpenSpotifyTail()
    ensures RemoveFrom(OpenSpotify, 5) == " spotify"
  {
    assert forall p :: 6 <= p < 13 ==> IsWordChar(OpenSpotify[p]);
    KeepSpacedWord(OpenSpotify, 5);
    assert OpenSpotify[5..] == " spotify";
  }

  lemma OpenSpotifyRemoved()
    ensures RemoveFrom(OpenSpotify, 0) == " spotify"
  {
    OpenSpotifyHead();
    OpenSpotifyTail();
  }

  /** "abrir spotify" is cleaned to "spotify". */
  lemma FilterOpenSpotify()
    ensures Filter(OpenSpotify) == "spotify"
  {
    OpenSpotifyRemoved();
    FilterOf(OpenSpotify, " spotify");
    StripSpotify();
  }

  const Abrirmente := "abrirmente"

  lemma AbrirmenteStart()
    ensures MatchAt(Abrirmente, 0) == None
  {
    assert !Boundary(Abrirmente, 5) && !Boundary(Abrirmente, 7);
  }

  lemma AbrirmenteIsOneWord()
    ensures forall p :: 0 <= p < |Abrirmente| ==> IsWordChar(Abrirmente[p])
  {
  }

  lemma AbrirmenteKept()
    ensures RemoveFrom(Abrirmente, 0) == Abrirmente
  {
    AbrirmenteStart();
    AbrirmenteIsOneWord();
    NoMatchInsideRun(Abrirmente, 1, 10);
    KeepToEnd(Abrirmente, 0);
  }

  /** A token that is only the start of a longer word stays: nothing is
      removed from "abrirmente". */
  lemma FilterKeepsLongerWord()
    ensures Filter(Abrirmente) == Abrirmente
  {
    AbrirmenteKept();
    FilterOf(Abrirmente, Abrirmente);
    StripTrimmed(Abrirmente);
  }

  const GoToCinema := "ir al cine"

  lemma GoToCinemaStart()
    ensures MatchAt(GoToCinema, 0) == None
  {
    assert !Boundary(GoToCinema, 4);
  }

  lemma GoToCinemaFirstWord()
    ensures MatchAt(GoToCinema, 1) == None && MatchAt(GoToCinema, 2) == None
  {
    NoMatchInsideWord(GoToCinema, 1);
    NoTokenStartsWith(GoToCinema, 2);
  }

  lemma GoToCinemaSecondWord()
    ensures MatchAt(GoToCinema, 3) == None && MatchAt(GoToCinema, 4) == None
  {
    NoAbAt(GoToCinema, 3);
    NoMatchInsideWord(GoToCinema, 4);
  }

  lemma GoToCinemaHead()
    ensures forall p :: 0 <= p < 5 ==> MatchAt(GoToCinema, p) == None
  {
    forall p | 0 <= p < 5 ensures MatchAt(GoToCinema, p) == None {
      if p == 0 {
        GoToCinemaStart();
      } else if p < 3 {
        GoToCinemaFirstWord();
      } else {
        GoToCinemaSecondWord();
      }
    }
  }

  lemma GoToCinemaKept()
    ensures RemoveFrom(GoToCinema, 0) == GoToCinema
  {
    GoToCinemaHead();
    KeepStretch(GoToCinema, 0, 5);
    GoToCinemaLastWord();
    KeepSpacedWord(GoToCinema, 5);
    assert GoToCinema[0..5] + GoToCinema[5..] == GoToCinema;
  }

  lemma GoToCinemaLastWord()
    ensures GoToCinema[5] == ' ' && GoToCinema[6] !in "aiqpel"
    ensures forall p :: 6 <= p < 10 ==> IsWordChar(GoToCinema[p])
  {
  }

  /** "ir a" followed by more letters is not the token "ir a": "ir al cine"
      is left as it is. */
  lemma FilterKeepsIrAl()
    ensures Filter(GoToCinema) == GoToCinema
  {
    GoToCinemaKept();
    FilterOf(GoToCinema, GoToCinema);
    StripTrimmed(GoToCinema);
  }

  const OpenMeSpotify := "abrirme spotify"

  /** "abrir" is tried first and fails its closing `\b`, "abre" is not
      there, and "abrirme" is matched instead. */
  lemma OpenMeSpotifyMatch()
    ensures MatchAt(OpenMeSpotify, 0) == Some(2)
  {
    assert !Boundary(OpenMeSpotify, 5);
    assert OpenMeSpotify[..4][3] != "abre"[3];
    assert OpenMeSpotify[..7] == "abrirme" by {
      assert forall j :: 0 <= j < 7 ==> OpenMeSpotify[j] == "abrirme"[j];
    }
    assert Boundary(OpenMeSpotify, 7);
    assert TryAlternatives(OpenMeSpotify, 0, 2) == Some(2);
  }

  lemma OpenMeSpotifyTail()
    ensures RemoveFrom(OpenMeSpotify, 7) == " spotify"
  {
    assert forall p :: 8 <= p < 15 ==> IsWordChar(OpenMeSpotify[p]);
    KeepSpacedWord(OpenMeSpotify, 7);
    assert OpenMeSpotify[7..] == " spotify";
  }

  lemma OpenMeSpotifyRemoved()
    ensures RemoveFrom(OpenMeSpotify, 0) == " spotify"
  {
    OpenMeSpotifyMatch();
    SkipMatch(OpenMeSpotify, 0, 2);
    OpenMeSpotifyTail();
  }

  lemma FilterOpenMeSpotify()
    ensures Filter(OpenMeSpotify) == "spotify"
  {
    OpenMeSpotifyRemoved();
    FilterOf(OpenMeSpotify, " spotify");
    StripSpotify();
  }

  const PutCinema := "tv pon cine"

  lemma PutCinemaMatch()
    ensures MatchAt(PutCinema, 3) == Some(5)
  {
    assert Boundary(PutCinema, 3) && Boundary(PutCinema, 6);
    assert PutCinema[3..6] == "pon";
    forall k | 0 <= k < 5 ensures !OccursAt(PutCinema, 3, Fillers[k]) {
      FillerShape(k);
      if 3 + |Fillers[k]| <= 11 {
        assert PutCinema[3..3 + |Fillers[k]|][0] == 'p';
      }
    }
    assert TryAlternatives(PutCinema, 3, 5) == Some(5);
  }

  lemma PutCinemaFirstWord()
    ensures forall p :: 0 <= p < 3 ==> MatchAt(PutCinema, p) == None
  {
    forall p | 0 <= p < 3 ensures MatchAt(PutCinema, p) == None {
      if p == 1 {
        NoMatchInsideWord(PutCinema, 1);
      } else {
        NoTokenStartsWith(PutCinema, p);
      }
    }
  }

  lemma PutCinemaHead()
    ensures RemoveFrom(PutCinema, 0) == "tv " + RemoveFrom(PutCinema, 3)
  {
    PutCinemaFirstWord();
    KeepStretch(PutCinema, 0, 3);
    assert PutCinema[0..3] == "tv ";
  }

  lemma PutCinemaTail()
    ensures RemoveFrom(PutCinema, 6) == " cine"
  {
    assert forall p :: 7 <= p < 11 ==> IsWordChar(PutCinema[p]);
    KeepSpacedWord(PutCinema, 6);
    assert PutCinema[6..] == " cine";
  }

  lemma PutCinemaRemoved()
    ensures RemoveFrom(PutCinema, 0) == "tv  cine"
  {
    PutCinemaHead();
    PutCinemaFromToken();
    GlueTvCine(RemoveFrom(PutCinema, 0), RemoveFrom(PutCinema, 3));
  }

  /** The concatenation step of `PutCinemaRemoved`, stated on symbolic
      strings: proved inline, beside the `RemoveFrom` terms on the literal
      transcript, the same step is far more expensive. */
  lemma GlueTvCine(whole: string, rest: string)
    requires whole == "tv " + rest && rest == " cine"
    ensures whole == "tv  cine"
  {
  }

  lemma PutCinemaFromToken()
    ensures RemoveFrom(PutCinema, 3) == " cine"
  {
    PutCinemaMatch();
    SkipMatch(PutCinema, 3, 5);
    PutCinemaTail();
  }

  /** A token removed from the middle leaves both of its neighbouring spaces
      behind: only the outer whitespace is trimmed. */
  lemma FilterKeepsInnerSpaces()
    ensures Filter(PutCinema) == "tv  cine"
  {
    PutCinemaRemoved();
    FilterOf(PutCinema, "tv  cine");
    StripTrimmed("tv  cine");
  }

  /** The accent is part of the name: "musica" does not mention "Música". */
  lemma AccentMatters()
    ensures !Mentions("musica", "Música")
  {
    var name := Lower("Música");
    assert |name| == 6 && name[1] == 'ú';
    ContainsIff("musica", name);
    forall i: nat ensures !OccursAt("musica", i, name) {
      if i == 0 {
        assert "musica"[0..6][1] != name[1];
      }
    }
  }

  const Apps := Dict(["Spotify"], map["Spotify" := 1])
  const Groups := Dict(["Trabajo"], map["Trabajo" := 2])
  const BothCommand := "spotify y trabajo"

  lemma BothMentioned()
    ensures FirstMentioned(BothCommand, Apps.keys) == Some(0)
    ensures FirstMentioned(BothCommand, Groups.keys) == Some(0)
  {
    assert Lower("Spotify") == "spotify" by {
      assert forall i :: 0 <= i < 7 ==> Lower("Spotify")[i] == "spotify"[i];
    }
    assert StartsWith(BothCommand, "spotify");
    assert Lower("Trabajo") == "trabajo" by {
      assert forall i :: 0 <= i < 7 ==> Lower("Trabajo")[i] == "trabajo"[i];
    }
    assert OccursAt(BothCommand, 10, "trabajo");
    ContainsIff(BothCommand, "trabajo");
  }

  /** One utterance can start an app and a group. */
  lemma AppAndGroupBothRun()
    ensures Reactions(BothCommand, Apps, Groups)
      == [RunApp(1), Say("Ejecutando Spotify"), RunGroup(2), Say("Ejecutando grupo Trabajo")]
  {
    BothMentioned();
    assert Apps.keys[0] == "Spotify" && Apps.vals["Spotify"] == 1;
    assert Groups.keys[0] == "Trabajo" && Groups.vals["Trabajo"] == 2;
    assert Valid(Apps) && Valid(Groups);
    var r := Reactions(BothCommand, Apps, Groups);
    assert r == [RunApp(1), Say("Ejecutando " + "Spotify")] + [RunGroup(2), Say("Ejecutando grupo " + "Trabajo")] + [];
    assert "Ejecutando " + "Spotify" == "Ejecutando Spotify";
    assert "Ejecutando grupo " + "Trabajo" == "Ejecutando grupo Trabajo";
  }

  /** The app-name lookup of a group item is exact and case-sensitive. */
  lemma ItemLookupIsCaseSensitive()
    ensures Resolve(TextItem("Spotify"), FromList([App("Spotify", "app", "C:/spotify.exe")], AppName), {}) == ["C:/spotify.exe"]
    ensures Resolve(TextItem("spotify"), FromList([App("Spotify", "app", "C:/spotify.exe")], AppName), {}) == []
  {
    var apps := FromList([App("Spotify", "app", "C:/spotify.exe")], AppName);
    assert [App("Spotify", "app", "C:/spotify.exe")][..0] == [];
    assert apps.vals == map["Spotify" := App("Spotify", "app", "C:/spotify.exe")];
    assert Lower("spotify")[0] == 's';
  }

  /** The two dispatchers disagree on what a web address is: `execute_command`
      sends "httpfoo" to the browser and not "HTTPS://example.com", while
      `execute_target` does the opposite. */
  lemma PrefixRulesDiffer()
    ensures StartsWith("httpfoo", "http") && !IsWebUrl("httpfoo")
    ensures !StartsWith("HTTPS://example.com", "http") && IsWebUrl("HTTPS://example.com")
  {
    assert Lower("httpfoo")[4] == 'f';
    assert Lower("httpfoo")[..7] != "http://";
    assert "HTTPS://example.com"[0] == 'H';
    assert Lower("HTTPS://example.com")[..8] == "https://" by {
      assert forall i :: 0 <= i < 8 ==> Lower("HTTPS://example.com")[i] == "https://"[i];
    }
  }

}
