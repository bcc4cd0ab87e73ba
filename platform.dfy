/** What the launcher asks of the operating system. `os.path.exists` is
    membership in a set of paths supplied by the caller; opening a target
    is recorded as an `Opening` instead of being performed. */
module Platform {

  /** The paths `os.path.exists` reports as present. */
  type Paths = set<string>

  /** `webbrowser.open(target)`, `os.startfile(target)`, or the error report
      for a target that could not be opened. */
  datatype Opening = Browser(target: string) | Launch(target: string) | Failed(target: string)
}
