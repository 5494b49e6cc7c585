/** The presence book as the object the daemon mutates. */
module PresenceBook {
  import opened Common
  import opened Order
  import opened Presence

  class PresenceBook {
    var active: map<string, Announcement>
    var known: map<string, Announcement>
    var lastSeenAt: map<string, nat>
    var activeSinceAt: map<string, nat>

    constructor ()
      ensures Contents() == EMPTY
    {
      active, known, lastSeenAt, activeSinceAt := map[], map[], map[], map[];
    }

    function Contents(): Book
      reads this
    {
      Book(active, known, lastSeenAt, activeSinceAt)
    }

    /** The flag tells whether an announcement became the active one, or a disconnect removed anything. */
    method ApplySignal(sender: string, payload: Payload, seenAt: nat) returns (changed: bool)
      modifies this
      ensures Contents() == Step(old(Contents()), Signal(sender, payload, seenAt))
      ensures payload.Announce? ==> (changed <==> Lookup(active, sender) == Some(payload.announcement)
                                                  && Accepts(old(active), sender, payload.announcement))
      ensures payload.Disconnect? ==> (changed <==> active != old(active) || known != old(known))
      ensures !payload.Announce? && !payload.Disconnect? ==> !changed
    {
      lastSeenAt := lastSeenAt[sender := seenAt];
      match payload {
        case Announce(a) =>
          var wasActive := sender in active;
          if sender !in known || known[sender].timestamp <= a.timestamp {
            known := known[sender := a];
          }
          if sender !in active || active[sender].timestamp <= a.timestamp {
            if !wasActive { activeSinceAt := activeSinceAt[sender := seenAt]; }
            active := active[sender := a];
            changed := true;
          } else {
            changed := false;
          }
        case Disconnect =>
          changed := sender in active || sender in known;
          active := active - {sender};
          activeSinceAt := activeSinceAt - {sender};
          known := known - {sender};
          assert sender in old(active) ==> sender !in active;
          assert sender in old(known) ==> sender !in known;
          assert sender !in old(active) ==> active == old(active);
          assert sender !in old(known) ==> known == old(known);
        case _ => changed := false;
      }
    }

    /** The announcement of an active peer, or else the last known one. */
    method AnnouncementFor(sender: string) returns (found: Option<Announcement>)
      ensures sender in active ==> found == Some(active[sender])
      ensures sender !in active ==> found == Lookup(known, sender)
      ensures Coherent(Contents()) ==> (found.Some? <==> sender in known)
      ensures Coherent(Contents()) && found.Some? ==> found.value.timestamp <= known[sender].timestamp
    {
      found := if sender in active then Some(active[sender]) else Lookup(known, sender);
    }

    static predicate Silent(lastSeen: map<string, nat>, cutoff: nat, p: string)
    {
      !HeardSince(Lookup(lastSeen, p), cutoff)
    }

    /** The walk over the active peers, in some order, that finds the silent ones. */
    static method FindSilent(peers: set<string>, lastSeen: map<string, nat>, cutoff: nat) returns (removed: seq<string>)
      ensures Elems(removed) == set p | p in peers && Silent(lastSeen, cutoff, p)
    {
      hide Silent;
      removed := [];
      var todo := peers;
      while todo != {}
        invariant todo <= peers
        invariant Elems(removed) == set p | p in peers - todo && Silent(lastSeen, cutoff, p)
        decreases |todo|
      {
        var p :| p in todo;
        todo := todo - {p};
        if Silent(lastSeen, cutoff, p) {
          ElemsConcat(removed, [p]);
          removed := removed + [p];
        }
      }
    }

    /** Drops the silent peers and names them in ascending order. */
    method PruneStale(now: nat, staleAfter: nat) returns (removed: seq<string>)
      modifies this`active, this`activeSinceAt
      ensures Contents() == Step(old(Contents()), Prune(now, staleAfter))
      ensures Sorted(removed) && Elems(removed) == old(active).Keys - active.Keys
    {
      if staleAfter == 0 { return []; }
      var cutoff := SatSub(now, staleAfter);
      removed := FindSilent(active.Keys, lastSeenAt, cutoff);
      assert Elems(removed) == active.Keys - Presence.Fresh(Contents(), cutoff);
      SortDedupSorted(removed);
      removed := SortDedup(removed);
      active, activeSinceAt := active - Elems(removed), activeSinceAt - Elems(removed);
    }

    method RetainParticipants(participants: set<string>)
      modifies this
      ensures Contents() == Step(old(Contents()), Retain(participants))
    {
      active := Only(active, participants);
      known := Only(known, participants);
      lastSeenAt := Only(lastSeenAt, participants);
      activeSinceAt := Only(activeSinceAt, participants);
    }

    /** Puts a cached announcement back. The peer is known by it from then on, with the last-seen
        time it had unless a new one comes along, and who is active does not change; a coherent book
        stays coherent exactly if the peer is not active with a newer announcement. */
    method RestoreKnown(peer: string, announcement: Announcement, lastSeen: Option<nat>)
      modifies this`known, this`lastSeenAt
      ensures Contents() == Step(old(Contents()), Restore(peer, announcement, lastSeen))
      ensures old(Coherent(Contents())) ==>
                (Coherent(Contents()) <==> (peer in active ==> active[peer].timestamp <= announcement.timestamp))
      ensures old(Coherent(Contents())) && peer !in active ==> Lookup(known, peer) == Some(announcement) && Coherent(Contents())
    {
      ghost var before := Contents();
      known := known[peer := announcement];
      if lastSeen.Some? { lastSeenAt := lastSeenAt[peer := lastSeen.value]; }
      if Coherent(before) { StepIsCoherentExactly(before, Restore(peer, announcement, lastSeen)); }
    }
  }
}
