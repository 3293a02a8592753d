/** Which participants the broker takes for one owner (crates/daemon/src/server.rs, handle_hello). */
module Owners {
  import opened Core
  import opened Envelope
  import opened Session

  /** One component is the other's with more behind a hyphen, and the facets make up for it. */
  predicate Shifted(p: Participant, q: Participant, middle: Text) {
    p.component == q.component + [45] + middle && q.facet == middle + [45] + p.facet
  }

  ghost predicate SharesOwner(p: Participant, q: Participant) {
    || (p.component == q.component && p.facet == q.facet)
    || (exists middle: Text :: Shifted(p, q, middle)) || (exists middle: Text :: Shifted(q, p, middle))
  }

  lemma ShiftedShares(p: Participant, q: Participant, middle: Text)
    requires Shifted(p, q, middle)
    ensures AgentId(p) == AgentId(q)
  {
    assert (q.component + [45] + middle) + [45] + p.facet == q.component + [45] + (middle + [45] + p.facet);
  }

  lemma LongerComponentIsShifted(p: Participant, q: Participant)
    requires AgentId(p) == AgentId(q) && |p.component| > |q.component|
    ensures exists middle: Text :: Shifted(p, q, middle)
  {
    var id, m, n := AgentId(p), |q.component|, |p.component|;
    assert id[..n] == p.component && id[..m] == q.component;
    assert id[m] == 45 && id[n] == 45;
    assert id[n + 1..] == p.facet && id[m + 1..] == q.facet;
    var middle := id[m + 1..n];
    assert p.component == id[..m] + [id[m]] + middle;
    assert q.facet == middle + [id[n]] + id[n + 1..];
    assert Shifted(p, q, middle);
  }

  /** Joining component and facet with a hyphen gives two participants one owner exactly when they
      are the same or differ in where a hyphen inside them is taken as the joint. */
  lemma SameOwnerExactlyWhen(p: Participant, q: Participant)
    ensures AgentId(p) == AgentId(q) <==> SharesOwner(p, q)
  {
    if AgentId(p) == AgentId(q) {
      if |p.component| > |q.component| {
        LongerComponentIsShifted(p, q);
      } else if |q.component| > |p.component| {
        LongerComponentIsShifted(q, p);
      } else {
        var n := |p.component|;
        assert AgentId(p)[..n] == p.component && AgentId(q)[..n] == q.component;
        assert AgentId(p)[n + 1..] == p.facet && AgentId(q)[n + 1..] == q.facet;
      }
    } else {
      forall middle: Text
        ensures !Shifted(p, q, middle) && !Shifted(q, p, middle)
      {
        if Shifted(p, q, middle) {
          ShiftedShares(p, q, middle);
        }
        if Shifted(q, p, middle) {
          ShiftedShares(q, p, middle);
        }
      }
    }
  }

  /** Where neither facet has a hyphen, an owner stands for one participant. */
  lemma HyphenFreeFacetsHaveOneOwner(p: Participant, q: Participant)
    requires 45 !in p.facet && 45 !in q.facet && AgentId(p) == AgentId(q)
    ensures p.component == q.component && p.facet == q.facet
  {
    LastHyphen(p.component, p.facet, q.component, q.facet);
  }

  lemma AsciiOfBoth(a: string, b: string)
    ensures Ascii(a + b) == Ascii(a) + Ascii(b)
  {
  }

  /** Some participant of the ordinary class has the owner of the Shell. */
  lemma ShellOwnerIsShared(cfg: Config, identity: Option<Identity>)
    ensures var p := Participant(Ascii("dsh-desktop"), Ascii("shell-shell"), None);
            && AgentId(p) == AgentId(Participant(SHELL_COMPONENT, SHELL_FACET, None))
            && AuthorityOf(cfg, identity, p) == Ordinary
  {
    var p, shell := Participant(Ascii("dsh-desktop"), Ascii("shell-shell"), None),
      Participant(SHELL_COMPONENT, SHELL_FACET, None);
    var middle := Ascii("shell");
    assert Ascii("-") == [45];
    AsciiOfBoth("dsh-desktop", "-");
    AsciiOfBoth("dsh-desktop-", "shell");
    assert "dsh-desktop" + "-" == "dsh-desktop-" && "dsh-desktop-" + "shell" == "dsh-desktop-shell";
    AsciiOfBoth("shell", "-");
    AsciiOfBoth("shell-", "shell");
    assert "shell" + "-" == "shell-" && "shell-" + "shell" == "shell-shell";
    assert Shifted(shell, p, middle);
    ShiftedShares(shell, p, middle);
    assert |p.component| == 11 && |SHELL_COMPONENT| == 17;
  }
}
