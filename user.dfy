/**
 * A user (a contact of the roster) with the presence facts the client keeps
 * about it: whether it is available, when it was last seen and its status
 * text.
 */
module UserModel {
  import opened Wrappers
  import opened Text
  import opened Messages

  /** Whether the user is known to be online. */
  datatype Availability = Unknown | Yes | No

  /**
   * The type of an incoming presence stanza: available, unavailable, or any
   * of the others (subscription requests and answers, errors), which do not
   * speak about availability.
   */
  datatype PresenceType = Available | Unavailable | OtherPresence

  /** The presence facts of a user. */
  datatype PresenceState = PresenceState(available: Availability, lastSeen: Option<Date>, status: Option<string>)

  /**
   * The presence facts after a presence of `kind` with status text `status`
   * (`None`: no status) arrives at time `now`.
   */
  function WithPresence(p: PresenceState, kind: PresenceType, status: Option<string>, now: Date): (r: PresenceState)
    ensures kind == Available ==> r.available == Yes && r.lastSeen == Some(now)
    ensures kind == Unavailable ==> r.available == No && r.lastSeen == p.lastSeen
    ensures kind == OtherPresence ==> r.available == p.available && r.lastSeen == p.lastSeen
    ensures status.Some? ==> r.status == status
    ensures status.None? ==> r.status == p.status
  {
    var available := if kind == Available then Yes else if kind == Unavailable then No else p.available;
    var lastSeen := if kind == Available then Some(now) else p.lastSeen;
    PresenceState(available, lastSeen, if status.Some? then status else p.status)
  }

  /** The availability is decided by the last presence that was available or unavailable. */
  lemma {:induction false} LastDecisivePresenceWins(p: PresenceState, kinds: seq<PresenceType>, statuses: seq<Option<string>>, times: seq<Date>)
    requires |kinds| == |statuses| == |times| && kinds != []
    requires kinds[0] != OtherPresence
    requires forall i :: 1 <= i < |kinds| ==> kinds[i] == OtherPresence
    ensures Replay(p, kinds, statuses, times).available == (if kinds[0] == Available then Yes else No)
  {
    var q := WithPresence(p, kinds[0], statuses[0], times[0]);
    OtherPresencesKeepAvailability(q, kinds[1..], statuses[1..], times[1..]);
  }

  /** Presences other than available and unavailable change neither availability nor last-seen date. */
  lemma {:induction false} OtherPresencesKeepAvailability(p: PresenceState, kinds: seq<PresenceType>, statuses: seq<Option<string>>, times: seq<Date>)
    requires |kinds| == |statuses| == |times|
    requires forall i :: 0 <= i < |kinds| ==> kinds[i] == OtherPresence
    ensures Replay(p, kinds, statuses, times).available == p.available
    ensures Replay(p, kinds, statuses, times).lastSeen == p.lastSeen
    decreases |kinds|
  {
    if kinds != [] {
      var q := WithPresence(p, kinds[0], statuses[0], times[0]);
      OtherPresencesKeepAvailability(q, kinds[1..], statuses[1..], times[1..]);
    }
  }

  /** A sequence of presences applied in order. */
  function Replay(p: PresenceState, kinds: seq<PresenceType>, statuses: seq<Option<string>>, times: seq<Date>): (r: PresenceState)
    requires |kinds| == |statuses| == |times|
    decreases |kinds|
  {
    if kinds == [] then p
    else Replay(WithPresence(p, kinds[0], statuses[0], times[0]), kinds[1..], statuses[1..], times[1..])
  }

  /** With a clock that does not go back, the last-seen date never goes back either. */
  lemma {:induction false} LastSeenMonotone(p: PresenceState, kinds: seq<PresenceType>, statuses: seq<Option<string>>, times: seq<Date>)
    requires |kinds| == |statuses| == |times|
    requires forall i, j :: 0 <= i < j < |times| ==> times[i] <= times[j]
    requires p.lastSeen.Some? && forall i :: 0 <= i < |times| ==> p.lastSeen.value <= times[i]
    ensures Replay(p, kinds, statuses, times).lastSeen.Some?
    ensures p.lastSeen.value <= Replay(p, kinds, statuses, times).lastSeen.value
    decreases |kinds|
  {
    if kinds != [] {
      var q := WithPresence(p, kinds[0], statuses[0], times[0]);
      assert q.lastSeen.Some? && p.lastSeen.value <= q.lastSeen.value;
      assert forall i :: 0 <= i < |times[1..]| ==> q.lastSeen.value <= times[1..][i] by {
        forall i | 0 <= i < |times[1..]| ensures q.lastSeen.value <= times[1..][i] {
          assert times[1..][i] == times[i + 1];
          assert times[0] <= times[i + 1];
        }
      }
      LastSeenMonotone(q, kinds[1..], statuses[1..], times[1..]);
    }
  }

  /** A user; its id is fixed when it is created or loaded. */
  class User {
    const id: int
    var jid: string
    var name: Option<string>
    var status: Option<string>
    var lastSeen: Option<Date>
    var available: Availability

    /** The presence facts of this user. */
    function Presence(): PresenceState
      reads this
    {
      PresenceState(available, lastSeen, status)
    }

    function GetJid(): string
      reads this
    {
      jid
    }

    function GetId(): int {
      id
    }

    function GetName(): Option<string>
      reads this
    {
      name
    }

    function GetStatus(): Option<string>
      reads this
    {
      status
    }

    function GetLastSeen(): Option<Date>
      reads this
    {
      lastSeen
    }

    function GetAvailable(): Availability
      reads this
    {
      available
    }

    /** A new user, e.g. from the roster; `insertedId` is the id its database row received. */
    constructor Create(jid: string, name: Option<string>, insertedId: int)
      ensures id == insertedId && this.jid == BareJid(jid) && this.name == name
      ensures Presence() == PresenceState(Unknown, None, None)
    {
      id := insertedId;
      this.jid := BareJid(jid);
      this.name := name;
      status := None;
      lastSeen := None;
      available := Unknown;
    }

    /** A user loaded from its database row: every stored field is taken as it is. */
    constructor Load(id: int, jid: string, name: Option<string>, status: Option<string>, lastSeen: Option<Date>)
      ensures this.id == id && this.jid == jid && this.name == name
      ensures this.status == status && this.lastSeen == lastSeen && available == Unknown
    {
      this.id := id;
      this.jid := jid;
      this.name := name;
      this.status := status;
      this.lastSeen := lastSeen;
      available := Unknown;
    }

    method SetJid(jid: string)
      modifies this
      ensures this.jid == BareJid(jid)
      ensures name == old(name) && Presence() == old(Presence())
    {
      this.jid := BareJid(jid);
    }

    method SetName(name: Option<string>)
      modifies this
      ensures this.name == name
      ensures jid == old(jid) && Presence() == old(Presence())
    {
      this.name := name;
    }

    /** A presence of type `kind`, with status text `status`, arriving at time `now`. */
    method SetPresence(kind: PresenceType, status: Option<string>, now: Date)
      modifies this
      ensures Presence() == WithPresence(old(Presence()), kind, status, now)
      ensures jid == old(jid) && name == old(name)
    {
      if kind == Available {
        available := Yes;
        lastSeen := Some(now);
      }
      if kind == Unavailable {
        available := No;
      }
      if status.Some? {
        this.status := status;
      }
    }
  }
}
