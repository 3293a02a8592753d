/** The daemon's own coordinates obey the rules of the frame validation (crates/daemon/src/capabilities.rs). */
module Catalog {
  import opened Core
  import opened Envelope
  import opened Session
  import opened Owners

  const SUFFIX: string := ".dsh-desktop.local/v1alpha1"

  predicate Lower(s: string) {
    forall i :: 0 <= i < |s| ==> 'a' <= s[i] <= 'z'
  }

  lemma SuffixGroups() returns (space: Text, major: Text, stage: Text)
    ensures Ascii(SUFFIX) == space + SLASH_V + major + stage
    ensures forall i :: 0 <= i < |space| ==> IsNamespaceByte(space[i])
    ensures major != [] && Digits(major) && StagePattern(stage)
  {
    space := Ascii(".dsh-desktop.local");
    major, stage := [49], ALPHA + [49];
    assert Ascii(SUFFIX) == space + SLASH_V + major + stage;
    assert stage[|ALPHA|..] == [49];
  }

  lemma LongerNamespace(s: Text, front: Text, space: Text, major: Text, stage: Text)
    requires s == front + (space + SLASH_V + major + stage) && front != [] && major != [] && Digits(major)
             && StagePattern(stage)
    requires forall i :: 0 <= i < |front| ==> IsNamespaceByte(front[i])
    requires forall i :: 0 <= i < |space| ==> IsNamespaceByte(space[i])
    ensures ApiVersionPattern(s)
  {
    hide StagePattern;
    assert s == (front + space) + SLASH_V + major + stage;
    assert ApiVersionGroups(s, front + space, major, stage);
  }

  lemma LowerIsNamespace(name: string)
    requires Lower(name)
    ensures |Ascii(name)| == |name| && forall i :: 0 <= i < |name| ==> IsNamespaceByte(Ascii(name)[i])
  {
  }

  lemma ListedIsValid(name: string, kind: string)
    requires name != "" && Lower(name) && KindPattern(Ascii(kind))
    ensures ValidCoordinate(Listed(name, kind))
  {
    hide Ascii;
    hide StagePattern;
    hide ApiVersionPattern;
    var space, major, stage := SuffixGroups();
    AsciiOfBoth(name, SUFFIX);
    LowerIsNamespace(name);
    LongerNamespace(Ascii(name + SUFFIX), Ascii(name), space, major, stage);
  }

  /** Every coordinate of the catalog is well formed. */
  lemma CatalogIsValid()
    ensures AllValid(CATALOG)
  {
    hide ValidCoordinate;
    ListedIsValid("system", "System");
    ListedIsValid("daemon", "Daemon");
    ListedIsValid("browser", "Browser");
    ListedIsValid("terminal", "Terminal");
    ListedIsValid("runtime", "Runtime");
    ListedIsValid("scheduler", "Scheduler");
    hide Listed;
  }
}
