/** `execute_command` in `actions.py`: the older dispatcher that opens a list
    of targets one after another. */
module Actions {
  import opened Text
  import opened Platform

  /** Every target is handled once, in list order, and a target that cannot
      be opened does not stop the ones after it. A target starting with
      `http`, compared case-sensitively and with nothing required after it,
      goes to the browser without any existence check; any other target is
      opened by the operating system when the path exists and reported
      otherwise. */
  method ExecuteCommand(targets: seq<string>, fs: Paths) returns (log: seq<Opening>)
    ensures |log| == |targets|
    ensures forall i :: 0 <= i < |log| ==> log[i].target == targets[i]
    ensures forall i :: 0 <= i < |log| ==> (log[i].Browser? <==> StartsWith(targets[i], "http"))
    ensures forall i :: 0 <= i < |log| ==> (log[i].Launch? <==> !StartsWith(targets[i], "http") && targets[i] in fs)
  {
    log := [];
    var i := 0;
    while i < |targets|
      invariant 0 <= i <= |targets|
      invariant |log| == i
      invariant forall j :: 0 <= j < i ==> log[j].target == targets[j]
      invariant forall j :: 0 <= j < i ==> (log[j].Browser? <==> StartsWith(targets[j], "http"))
      invariant forall j :: 0 <= j < i ==> (log[j].Launch? <==> !StartsWith(targets[j], "http") && targets[j] in fs)
    {
      var target := targets[i];
      if StartsWith(target, "http") {
        log := log + [Browser(target)];
      } else if target in fs {
        log := log + [Launch(target)];
      } else {
        log := log + [Failed(target)];
      }
      i := i + 1;
    }
  }
}
