/** The exit-node runtime as the object the daemon keeps, and the machine it works on. Each call
    to the machine takes a flag that says whether the call succeeds. */
module ExitNode {
  import opened Common
  import opened Forwarding

  /** The forwarding flag under `/proc` and the `iptables` rules. */
  class Machine {
    var forwarding: bool
    var rules: multiset<Rule>

    constructor (forwarding: bool, rules: multiset<Rule>)
      ensures this.forwarding == forwarding && this.rules == rules
    {
      this.forwarding, this.rules := forwarding, rules;
    }

    function Contents(): Host
      reads this
    {
      Host(forwarding, rules)
    }

    method ReadForward(succeeds: bool) returns (value: Option<bool>)
      ensures value == if succeeds then Some(forwarding) else None
    {
      value := if succeeds then Some(forwarding) else None;
    }

    method WriteForward(value: bool, succeeds: bool) returns (ok: bool)
      modifies this`forwarding
      ensures ok == succeeds && forwarding == if succeeds then value else old(forwarding)
    {
      if succeeds { forwarding := value; }
      ok := succeeds;
    }

    /** `iptables -C`: whether the rule is there, if the call succeeds. */
    method RuleExists(r: Rule, succeeds: bool) returns (found: Option<bool>)
      ensures found == if succeeds then Some(r in rules) else None
    {
      found := if succeeds then Some(r in rules) else None;
    }

    /** `iptables -A`, which adds the rule even if it is there already. */
    method AppendRule(r: Rule, succeeds: bool) returns (ok: bool)
      modifies this`rules
      ensures ok == succeeds && rules == if succeeds then old(rules) + multiset{r} else old(rules)
    {
      if succeeds { rules := rules + multiset{r}; }
      ok := succeeds;
    }

    /** `iptables -D`, which removes one copy of the rule. */
    method RemoveRule(r: Rule, succeeds: bool) returns (ok: bool)
      modifies this`rules
      ensures ok == succeeds && rules == if succeeds then old(rules) - multiset{r} else old(rules)
    {
      if succeeds { rules := rules - multiset{r}; }
      ok := succeeds;
    }

    /** Checks for the rule and appends it if it is missing; either call can fail. On success the rule
        is there, it is never there twice because of this, and no other rule is touched. */
    method EnsureRule(r: Rule, calls: Calls) returns (ok: bool)
      modifies this`rules
      ensures ok == EnsureSucceeds(old(rules), r, calls) && rules == Ensured(old(rules), r, calls)
      ensures ok ==> r in rules
      ensures rules[r] == (if ok && old(rules)[r] == 0 then 1 else old(rules)[r])
      ensures forall q :: q != r ==> rules[q] == old(rules)[q]
    {
      var found := RuleExists(r, calls.check);
      if found.None? { return false; }
      if found.value { return true; }
      ok := AppendRule(r, calls.change);
    }

    /** Checks for the rule and removes a copy if it is there; either call can fail. */
    method DeleteRule(r: Rule, calls: Calls) returns (ok: bool)
      modifies this`rules
      ensures ok == (calls.check && (r !in old(rules) || calls.change)) && rules == Deleted(old(rules), r, calls)
      ensures ok && old(rules)[r] <= 1 ==> r !in rules
      ensures forall q :: q != r ==> rules[q] == old(rules)[q]
    {
      var found := RuleExists(r, calls.check);
      if found.None? { return false; }
      if !found.value { return true; }
      ok := RemoveRule(r, calls.change);
    }
  }

  class ExitNode {
    const iface: string
    const machine: Machine
    var outbound: Option<string>
    var source: Option<string>
    var wasEnabled: Option<bool>

    constructor (iface: string, machine: Machine)
      ensures this.iface == iface && this.machine == machine
      ensures Contents() == State(machine.Contents(), NOTHING)
    {
      this.iface, this.machine := iface, machine;
      outbound, source, wasEnabled := None, None, None;
    }

    function Contents(): State
      reads this, machine
    {
      State(machine.Contents(), Runtime(outbound, source, wasEnabled))
    }

    /** Deletes the recorded rules, restores the flag, and forgets, whatever fails on the way. */
    method Cleanup(luck: CleanupLuck)
      modifies this, machine
      ensures Contents() == Forwarding.Cleanup(iface, old(Contents()), luck)
    {
      hide Deleted, ForwardIn, ForwardOut, Masquerade;
      if outbound.Some? && source.Some? {
        var masquerade := machine.DeleteRule(Masquerade(outbound.value, source.value), luck.masquerade);
        var forwardOut := machine.DeleteRule(ForwardOut(iface), luck.forwardOut);
        var forwardIn := machine.DeleteRule(ForwardIn(iface), luck.forwardIn);
      }
      if wasEnabled == Some(false) {
        var restored := machine.WriteForward(false, luck.restore);
      }
      outbound, source, wasEnabled := None, None, None;
    }

    /** Installs the three rules, stopping at the first failure. */
    method Install(to: string, from: string, luck: SetupLuck) returns (ok: bool)
      modifies machine`rules
      ensures (machine.rules, ok) == Installed(iface, old(machine.rules), to, from, luck)
    {
      hide Ensured, ForwardIn, ForwardOut, Masquerade;
      ok := machine.EnsureRule(ForwardIn(iface), luck.forwardIn);
      if ok { ok := machine.EnsureRule(ForwardOut(iface), luck.forwardOut); }
      if ok { ok := machine.EnsureRule(Masquerade(to, from), luck.masquerade); }
    }

    /** Cleans up, then sets up afresh; any failure cleans up again. */
    method SetUp(to: string, from: string, luck: SetupLuck)
      modifies this, machine
      ensures Contents() == Setup(iface, old(Contents()), to, from, luck)
    {
      hide Forwarding.Cleanup, Installed;
      Cleanup(luck.before);
      outbound, source := Some(to), Some(from);
      var previous := machine.ReadForward(luck.read);
      if previous.None? {
        Cleanup(luck.after);
        return;
      }
      wasEnabled := previous;
      if !previous.value {
        var enabled := machine.WriteForward(true, luck.enable);
        if !enabled {
          Cleanup(luck.after);
          return;
        }
      }
      var installed := Install(to, from, luck);
      if !installed { Cleanup(luck.after); }
    }

    method Reconcile(w: Wish, luck: SetupLuck)
      modifies this, machine
      ensures Contents() == Forwarding.Reconcile(iface, old(Contents()), w, luck)
    {
      hide Forwarding.Cleanup, Setup;
      if !w.advertised || w.source.None? || w.device.None? {
        Cleanup(luck.before);
      } else if outbound != w.device || source != w.source {
        SetUp(w.device.value, w.source.value, luck);
      }
    }
  }
}
