/**
 * The Mergington High School activity registry: an in-memory map from an
 * activity's name to its record, listed by `get_activities` and changed by
 * `signup_for_activity` (append an email) and `unregister_from_activity`
 * (remove an email).
 *
 * The module holds the registry's values and errors, the two transitions as
 * pure functions over the map (the specification), the class that owns the
 * shared mutable map and whose methods perform the transitions in place, the
 * seed data, and the lemmas about all of them.
 */
module Activities {

  /** One activity record. Only `participants` ever changes. */
  datatype Activity = Activity(
    description: string,
    schedule: string,
    maxParticipants: int,
    participants: seq<string>)

  /** The registry: activity name to record. */
  type Registry = map<string, Activity>

  /** The two kinds of failure, each with its human-readable detail. */
  datatype HttpError = NotFound(detail: string) | Conflict(detail: string)
  {
    /** The transport status code the failure is reported with. */
    function StatusCode(): (code: int)
      ensures NotFound? <==> code == 404
      ensures Conflict? <==> code == 400
    {
      match this
      case NotFound(_) => 404
      case Conflict(_) => 400
    }
  }

  /** What a request answers: a success message or a failure. */
  datatype Response = Ok(message: string) | Failed(error: HttpError)

  /** A response together with the registry after the request. */
  datatype Outcome = Outcome(response: Response, registry: Registry)

  const ActivityNotFound: string := "Activity not found"
  const AlreadySignedUp: string := "Student already signed up for this activity"
  const ParticipantNotFound: string := "Participant not found in this activity"

  function SignedUpMessage(email: string, name: string): string {
    "Signed up " + email + " for " + name
  }

  function UnregisteredMessage(email: string, name: string): string {
    "Unregistered " + email + " from " + name
  }

  // ---------------------------------------------------------------------
  // Participant lists

  /** No email appears twice in the list. */
  predicate NoDuplicates(s: seq<string>) {
    forall i, j :: 0 <= i < j < |s| ==> s[i] != s[j]
  }

  /** The registry invariant: every activity's participants are distinct. */
  predicate WellFormed(reg: Registry) {
    forall name :: name in reg ==> NoDuplicates(reg[name].participants)
  }

  /** The position of the first occurrence of `x` in `s`. */
  function FirstIndex(s: seq<string>, x: string): (i: nat)
    requires x in s
    ensures i < |s| && s[i] == x && x !in s[..i]
  {
    if s[0] == x then 0 else 1 + FirstIndex(s[1..], x)
  }

  /**
   * Python's `list.remove(x)`: drop the first occurrence of `x`. The list
   * method raises when `x` is absent, hence the precondition.
   */
  function RemoveFirst(s: seq<string>, x: string): (r: seq<string>)
    requires x in s
    ensures |r| == |s| - 1
  {
    if s[0] == x then s[1..] else [s[0]] + RemoveFirst(s[1..], x)
  }

  /** `RemoveFirst` cuts out exactly the element at the first occurrence. */
  lemma {:induction false} RemoveFirstCutsFirstOccurrence(s: seq<string>, x: string)
    requires x in s
    ensures RemoveFirst(s, x) == s[..FirstIndex(s, x)] + s[FirstIndex(s, x) + 1..]
  {
    if s[0] != x {
      RemoveFirstCutsFirstOccurrence(s[1..], x);
      var i := FirstIndex(s[1..], x);
      assert s[..i + 1] == [s[0]] + s[1..][..i];
      assert s[i + 2..] == s[1..][i + 1..];
    }
  }

  /** Removing one occurrence takes exactly one copy of `x` out of the multiset. */
  lemma {:induction false} RemoveFirstMultiset(s: seq<string>, x: string)
    requires x in s
    ensures multiset(RemoveFirst(s, x)) == multiset(s) - multiset{x}
  {
    assert s == [s[0]] + s[1..];
    if s[0] != x {
      RemoveFirstMultiset(s[1..], x);
    }
  }

  /** On a list without duplicates, `x` is gone afterwards and the rest stays distinct. */
  lemma RemoveFirstFromDistinct(s: seq<string>, x: string)
    requires x in s && NoDuplicates(s)
    ensures x !in RemoveFirst(s, x)
    ensures NoDuplicates(RemoveFirst(s, x))
  {
    var i := FirstIndex(s, x);
    RemoveFirstCutsFirstOccurrence(s, x);
    var r := RemoveFirst(s, x);
    assert r == s[..i] + s[i + 1..];
    forall k | 0 <= k < |r|
      ensures r[k] == s[if k < i then k else k + 1]
    {
    }
    forall k | 0 <= k < |r|
      ensures r[k] != x
    {
      assert s[i] == x;
    }
    forall a, b | 0 <= a < b < |r|
      ensures r[a] != r[b]
    {
      assert r[a] == s[if a < i then a else a + 1];
      assert r[b] == s[if b < i then b else b + 1];
    }
  }

  /** Appending an absent `x` and removing it again gives back the list. */
  lemma {:induction false} RemoveFirstAfterAppend(s: seq<string>, x: string)
    requires x !in s
    ensures x in s + [x]
    ensures RemoveFirst(s + [x], x) == s
  {
    if s != [] {
      assert (s + [x])[1..] == s[1..] + [x];
      RemoveFirstAfterAppend(s[1..], x);
    }
  }

  /** Appending an absent email keeps a list distinct. */
  lemma AppendKeepsDistinct(s: seq<string>, x: string)
    requires NoDuplicates(s) && x !in s
    ensures NoDuplicates(s + [x])
  {
    var t := s + [x];
    forall i, j | 0 <= i < j < |t| ensures t[i] != t[j] {
      if j == |s| {
        assert t[i] == s[i];
      }
    }
  }

  // ---------------------------------------------------------------------
  // The transitions, as functions of the registry

  /**
   * `signup_for_activity`: unknown activity, then duplicate email, are
   * refused; otherwise the email is appended to that activity's list.
   */
  function Signup(reg: Registry, name: string, email: string): (o: Outcome)
    ensures o.registry.Keys == reg.Keys
    ensures forall n :: n in reg && n != name ==> o.registry[n] == reg[n]
    ensures forall n :: n in reg ==> o.registry[n] == reg[n].(participants := o.registry[n].participants)
    ensures o.response.Ok? <==> name in reg && email !in reg[name].participants
    ensures o.response.Failed? ==> o.registry == reg
  {
    if name !in reg then
      Outcome(Failed(NotFound(ActivityNotFound)), reg)
    else
      var activity := reg[name];
      if email in activity.participants then
        Outcome(Failed(Conflict(AlreadySignedUp)), reg)
      else
        var updated := activity.(participants := activity.participants + [email]);
        Outcome(Ok(SignedUpMessage(email, name)), reg[name := updated])
  }

  /**
   * `unregister_from_activity`: unknown activity, then unknown email, are
   * refused; otherwise the first occurrence of the email is removed.
   */
  function Unregister(reg: Registry, name: string, email: string): (o: Outcome)
    ensures o.registry.Keys == reg.Keys
    ensures forall n :: n in reg && n != name ==> o.registry[n] == reg[n]
    ensures forall n :: n in reg ==> o.registry[n] == reg[n].(participants := o.registry[n].participants)
    ensures o.response.Ok? <==> name in reg && email in reg[name].participants
    ensures o.response.Failed? ==> o.registry == reg
  {
    if name !in reg then
      Outcome(Failed(NotFound(ActivityNotFound)), reg)
    else
      var activity := reg[name];
      if email !in activity.participants then
        Outcome(Failed(NotFound(ParticipantNotFound)), reg)
      else
        var updated := activity.(participants := RemoveFirst(activity.participants, email));
        Outcome(Ok(UnregisteredMessage(email, name)), reg[name := updated])
  }

  // ---------------------------------------------------------------------
  // Properties of the transitions

  /** Signup's failures, in the order they are checked, and that they change nothing. */
  lemma SignupFailures(reg: Registry, name: string, email: string)
    ensures name !in reg ==>
      Signup(reg, name, email) == Outcome(Failed(NotFound("Activity not found")), reg)
    ensures name in reg && email in reg[name].participants ==>
      Signup(reg, name, email) == Outcome(Failed(Conflict("Student already signed up for this activity")), reg)
    ensures Signup(reg, name, email).response.Failed? ==>
      Signup(reg, name, email).response.error.StatusCode() == (if name in reg then 400 else 404)
  {
  }

  /** A successful signup appends the email at the end and touches nothing else. */
  lemma SignupAppends(reg: Registry, name: string, email: string)
    requires name in reg && email !in reg[name].participants
    ensures var o := Signup(reg, name, email);
      && o.response == Ok("Signed up " + email + " for " + name)
      && name in o.registry
      && o.registry[name].participants == reg[name].participants + [email]
      && o.registry[name].description == reg[name].description
      && o.registry[name].schedule == reg[name].schedule
      && o.registry[name].maxParticipants == reg[name].maxParticipants
      && email in o.registry[name].participants
  {
  }

  /** Signup keeps every participant list free of duplicates. */
  lemma SignupPreservesWellFormed(reg: Registry, name: string, email: string)
    requires WellFormed(reg)
    ensures WellFormed(Signup(reg, name, email).registry)
  {
    if name in reg && email !in reg[name].participants {
      AppendKeepsDistinct(reg[name].participants, email);
    }
  }

  /** A second signup of the same email is a conflict and changes nothing. */
  lemma SignupTwiceConflicts(reg: Registry, name: string, email: string)
    requires name in reg && email !in reg[name].participants
    ensures var after := Signup(reg, name, email).registry;
      Signup(after, name, email) == Outcome(Failed(Conflict(AlreadySignedUp)), after)
  {
  }

  /** Signup never consults `maxParticipants`: a full (or overfull) activity still accepts. */
  lemma SignupIgnoresCapacity(reg: Registry, name: string, email: string)
    requires name in reg && email !in reg[name].participants
    requires |reg[name].participants| >= reg[name].maxParticipants
    ensures Signup(reg, name, email).response.Ok?
    ensures |Signup(reg, name, email).registry[name].participants| > reg[name].maxParticipants
  {
  }

  /** Unregister's failures, in the order they are checked, and that they change nothing. */
  lemma UnregisterFailures(reg: Registry, name: string, email: string)
    ensures name !in reg ==>
      Unregister(reg, name, email) == Outcome(Failed(NotFound("Activity not found")), reg)
    ensures name in reg && email !in reg[name].participants ==>
      Unregister(reg, name, email) == Outcome(Failed(NotFound("Participant not found in this activity")), reg)
    ensures Unregister(reg, name, email).response.Failed? ==>
      Unregister(reg, name, email).response.error.StatusCode() == 404
  {
  }

  /**
   * A successful unregister removes the first occurrence of the email, keeps
   * the order of the others and the other fields; on a distinct list the
   * email is then absent.
   */
  lemma UnregisterRemoves(reg: Registry, name: string, email: string)
    requires name in reg && email in reg[name].participants
    ensures var o := Unregister(reg, name, email);
      var before := reg[name].participants;
      var i := FirstIndex(before, email);
      && o.response == Ok("Unregistered " + email + " from " + name)
      && name in o.registry
      && o.registry[name].participants == before[..i] + before[i + 1..]
      && multiset(o.registry[name].participants) == multiset(before) - multiset{email}
      && o.registry[name].description == reg[name].description
      && o.registry[name].schedule == reg[name].schedule
      && o.registry[name].maxParticipants == reg[name].maxParticipants
      && (NoDuplicates(before) ==> email !in o.registry[name].participants)
  {
    var before := reg[name].participants;
    RemoveFirstCutsFirstOccurrence(before, email);
    RemoveFirstMultiset(before, email);
    if NoDuplicates(before) {
      RemoveFirstFromDistinct(before, email);
    }
  }

  /** Unregister keeps every participant list free of duplicates. */
  lemma UnregisterPreservesWellFormed(reg: Registry, name: string, email: string)
    requires WellFormed(reg)
    ensures WellFormed(Unregister(reg, name, email).registry)
  {
    if name in reg && email in reg[name].participants {
      RemoveFirstFromDistinct(reg[name].participants, email);
    }
  }

  /** On a well-formed registry, a second unregister of the same email is NotFound. */
  lemma UnregisterTwiceNotFound(reg: Registry, name: string, email: string)
    requires WellFormed(reg) && name in reg && email in reg[name].participants
    ensures var after := Unregister(reg, name, email).registry;
      Unregister(after, name, email) == Outcome(Failed(NotFound(ParticipantNotFound)), after)
  {
    RemoveFirstFromDistinct(reg[name].participants, email);
  }

  /** Signing up an absent email and unregistering it restores the registry exactly. */
  lemma SignupThenUnregister(reg: Registry, name: string, email: string)
    requires name in reg && email !in reg[name].participants
    ensures var mid := Signup(reg, name, email);
      var back := Unregister(mid.registry, name, email);
      && mid.response.Ok?
      && back.response.Ok?
      && back.registry == reg
  {
    var a := reg[name];
    RemoveFirstAfterAppend(a.participants, email);
    var back := Unregister(Signup(reg, name, email).registry, name, email).registry;
    assert back[name] == a;
  }

  // ---------------------------------------------------------------------
  // Sequences of requests

  /** A request the registry serves, one at a time. */
  datatype Request =
    | SignupRequest(name: string, email: string)
    | UnregisterRequest(name: string, email: string)

  function Handle(reg: Registry, req: Request): Outcome {
    match req
    case SignupRequest(name, email) => Signup(reg, name, email)
    case UnregisterRequest(name, email) => Unregister(reg, name, email)
  }

  /** The registry after serving `reqs` in order. */
  function Replay(reg: Registry, reqs: seq<Request>): Registry
    decreases |reqs|
  {
    if reqs == [] then reg else Replay(Handle(reg, reqs[0]).registry, reqs[1..])
  }

  /** No sequence of requests introduces a duplicate participant. */
  lemma {:induction false} ReplayPreservesWellFormed(reg: Registry, reqs: seq<Request>)
    requires WellFormed(reg)
    ensures WellFormed(Replay(reg, reqs))
    decreases |reqs|
  {
    if reqs != [] {
      match reqs[0] {
        case SignupRequest(name, email) => SignupPreservesWellFormed(reg, name, email);
        case UnregisterRequest(name, email) => UnregisterPreservesWellFormed(reg, name, email);
      }
      ReplayPreservesWellFormed(Handle(reg, reqs[0]).registry, reqs[1..]);
    }
  }

  /**
   * No sequence of requests adds, removes or renames an activity, or changes
   * anything of a record but its participants.
   */
  lemma {:induction false} ReplayKeepsCatalogue(reg: Registry, reqs: seq<Request>)
    ensures Replay(reg, reqs).Keys == reg.Keys
    ensures forall n :: n in reg ==>
      Replay(reg, reqs)[n] == reg[n].(participants := Replay(reg, reqs)[n].participants)
    decreases |reqs|
  {
    if reqs != [] {
      ReplayKeepsCatalogue(Handle(reg, reqs[0]).registry, reqs[1..]);
    }
  }

  // ---------------------------------------------------------------------
  // The seed data

  /** The seed entries, in the order the registry literal lists them. */
  const SeedEntries: seq<(string, Activity)> := [
    ("Chess Club", Activity(
      "Learn strategies and compete in chess tournaments",
      "Fridays, 3:30 PM - 5:00 PM", 12,
      ["michael@mergington.edu", "daniel@mergington.edu"])),
    ("Programming Class", Activity(
      "Learn programming fundamentals and build software projects",
      "Tuesdays and Thursdays, 3:30 PM - 4:30 PM", 20,
      ["emma@mergington.edu", "sophia@mergington.edu"])),
    ("Gym Class", Activity(
      "Physical education and sports activities",
      "Mondays, Wednesdays, Fridays, 2:00 PM - 3:00 PM", 30,
      ["john@mergington.edu", "olivia@mergington.edu"])),
    ("Soccer Team", Activity(
      "Practice and compete in interschool soccer matches",
      "Mondays and Thursdays, 4:00 PM - 6:00 PM", 18,
      ["alex@mergington.edu", "linda@mergington.edu"])),
    ("Swimming Club", Activity(
      "Technique training and recreational swim sessions",
      "Wednesdays, 4:00 PM - 5:30 PM", 15,
      ["mark@mergington.edu"])),
    ("Art Club", Activity(
      "Explore drawing, painting, and mixed media projects",
      "Tuesdays, 3:30 PM - 5:00 PM", 20,
      ["noah@mergington.edu", "ava@mergington.edu"])),
    ("Theater Group", Activity(
      "Acting, stagecraft, and production of school plays",
      "Fridays, 4:00 PM - 6:30 PM", 25,
      ["mia@mergington.edu", "lucas@mergington.edu"])),
    ("Debate Team", Activity(
      "Practice public speaking and compete in debate tournaments",
      "Wednesdays, 3:30 PM - 5:00 PM", 16,
      ["grace@mergington.edu", "ethan@mergington.edu"])),
    ("Science Club", Activity(
      "Hands-on experiments and science fair project development",
      "Thursdays, 3:30 PM - 5:00 PM", 20,
      ["chloe@mergington.edu", "liam@mergington.edu"]))
  ]

  /** The registry a dict literal builds from its entries: a later key overrides an earlier one. */
  function RegistryOf(entries: seq<(string, Activity)>): (reg: Registry)
    ensures reg.Keys == set i | 0 <= i < |entries| :: entries[i].0
  {
    if entries == [] then map[]
    else
      var last := entries[|entries| - 1];
      RegistryOf(entries[..|entries| - 1])[last.0 := last.1]
  }

  /** Every record of the built registry is the record of one of the entries. */
  lemma {:induction false} RegistryOfRecords(entries: seq<(string, Activity)>, name: string)
    requires name in RegistryOf(entries)
    ensures exists i :: 0 <= i < |entries| && entries[i] == (name, RegistryOf(entries)[name])
  {
    var last := entries[|entries| - 1];
    if name != last.0 {
      var init := entries[..|entries| - 1];
      RegistryOfRecords(init, name);
      var i :| 0 <= i < |init| && init[i] == (name, RegistryOf(init)[name]);
      assert entries[i] == init[i];
    }
  }

  /** An entry whose key no later entry repeats gives that key its record. */
  lemma {:induction false} RegistryOfLookup(entries: seq<(string, Activity)>, i: nat)
    requires i < |entries|
    requires forall j :: i < j < |entries| ==> entries[j].0 != entries[i].0
    ensures entries[i].0 in RegistryOf(entries)
    ensures RegistryOf(entries)[entries[i].0] == entries[i].1
  {
    if i < |entries| - 1 {
      var init := entries[..|entries| - 1];
      assert init[i] == entries[i];
      RegistryOfLookup(init, i);
    }
  }

  /** A two-element list whose elements differ at their first character is distinct. */
  lemma PairDistinct(a: string, b: string)
    requires a != [] && b != [] && a[0] != b[0]
    ensures NoDuplicates([a, b])
  {
  }

  /** Every seeded activity has distinct participants, none beyond its capacity. */
  lemma SeedWellFormed()
    ensures WellFormed(RegistryOf(SeedEntries))
    ensures forall name :: name in RegistryOf(SeedEntries) ==>
      |RegistryOf(SeedEntries)[name].participants| <= RegistryOf(SeedEntries)[name].maxParticipants
  {
    PairDistinct("michael@mergington.edu", "daniel@mergington.edu");
    PairDistinct("emma@mergington.edu", "sophia@mergington.edu");
    PairDistinct("john@mergington.edu", "olivia@mergington.edu");
    PairDistinct("alex@mergington.edu", "linda@mergington.edu");
    PairDistinct("noah@mergington.edu", "ava@mergington.edu");
    PairDistinct("mia@mergington.edu", "lucas@mergington.edu");
    PairDistinct("grace@mergington.edu", "ethan@mergington.edu");
    PairDistinct("chloe@mergington.edu", "liam@mergington.edu");
    assert forall i :: 0 <= i < |SeedEntries| ==>
      NoDuplicates(SeedEntries[i].1.participants)
      && |SeedEntries[i].1.participants| <= SeedEntries[i].1.maxParticipants;
    forall name | name in RegistryOf(SeedEntries)
      ensures NoDuplicates(RegistryOf(SeedEntries)[name].participants)
      ensures |RegistryOf(SeedEntries)[name].participants| <= RegistryOf(SeedEntries)[name].maxParticipants
    {
      RegistryOfRecords(SeedEntries, name);
    }
  }

  /**
   * The seeded "Chess Club" has capacity 12 and its two participants; there
   * is no "Unknown Club".
   */
  lemma SeedChessClub()
    ensures "Chess Club" in RegistryOf(SeedEntries)
    ensures RegistryOf(SeedEntries)["Chess Club"].maxParticipants == 12
    ensures RegistryOf(SeedEntries)["Chess Club"].participants
      == ["michael@mergington.edu", "daniel@mergington.edu"]
    ensures "Unknown Club" !in RegistryOf(SeedEntries)
  {
    var es := SeedEntries;
    assert forall i :: 1 <= i < |es| ==> es[i].0[0] != 'C' && es[i].0 != "Chess Club";
    assert forall i :: 0 <= i < |es| ==> es[i].0[0] != 'U' && es[i].0 != "Unknown Club";
    RegistryOfLookup(es, 0);
  }

  /**
   * The start-up registry: the nine seeded activities, each with distinct
   * participants within its capacity, "Chess Club" among them.
   */
  function SeedActivities(): (reg: Registry)
    ensures WellFormed(reg)
    ensures forall name :: name in reg ==> |reg[name].participants| <= reg[name].maxParticipants
    ensures "Chess Club" in reg && reg["Chess Club"].maxParticipants == 12
    ensures reg["Chess Club"].participants == ["michael@mergington.edu", "daniel@mergington.edu"]
    ensures "Unknown Club" !in reg
  {
    SeedWellFormed();
    SeedChessClub();
    RegistryOf(SeedEntries)
  }

  /** Every registry reachable from the seed has distinct participants in every activity. */
  lemma ReachableWellFormed(reqs: seq<Request>)
    ensures WellFormed(Replay(SeedActivities(), reqs))
  {
    ReplayPreservesWellFormed(SeedActivities(), reqs);
  }

  // ---------------------------------------------------------------------
  // The shared, mutable registry

  /** The process-wide registry; the map is reassigned by each successful request. */
  class ActivityRegistry {
    var activities: Registry

    ghost predicate Valid()
      reads this
    {
      WellFormed(activities)
    }

    /** The registry as seeded at start-up. */
    constructor ()
      ensures activities == SeedActivities()
      ensures Valid()
    {
      activities := SeedActivities();
    }

    /** `get_activities`: the registry as it stands, unchanged. */
    method GetActivities() returns (r: Registry)
      ensures r == activities
    {
      r := activities;
    }

    /** `signup_for_activity`, performed on the shared registry. */
    method SignupForActivity(name: string, email: string) returns (r: Response)
      modifies this
      ensures r == Signup(old(activities), name, email).response
      ensures activities == Signup(old(activities), name, email).registry
      ensures old(Valid()) ==> Valid()
    {
      if name !in activities {
        r := Failed(NotFound(ActivityNotFound));
      } else {
        var activity := activities[name];
        if email in activity.participants {
          r := Failed(Conflict(AlreadySignedUp));
        } else {
          activities := activities[name := activity.(participants := activity.participants + [email])];
          r := Ok(SignedUpMessage(email, name));
        }
      }
      if WellFormed(old(activities)) {
        SignupPreservesWellFormed(old(activities), name, email);
      }
    }

    /** `unregister_from_activity`, performed on the shared registry. */
    method UnregisterFromActivity(name: string, email: string) returns (r: Response)
      modifies this
      ensures r == Unregister(old(activities), name, email).response
      ensures activities == Unregister(old(activities), name, email).registry
      ensures old(Valid()) ==> Valid()
    {
      if name !in activities {
        r := Failed(NotFound(ActivityNotFound));
      } else {
        var activity := activities[name];
        if email !in activity.participants {
          r := Failed(NotFound(ParticipantNotFound));
        } else {
          activities := activities[name := activity.(participants := RemoveFirst(activity.participants, email))];
          r := Ok(UnregisteredMessage(email, name));
        }
      }
      if WellFormed(old(activities)) {
        UnregisterPreservesWellFormed(old(activities), name, email);
      }
    }
  }

  /**
   * Unregistering the same email twice from a registry that keeps its
   * invariant: the first request succeeds exactly when the email is listed,
   * and then the second is NotFound; a first failure is simply repeated.
   */
  method UnregisterTwice(registry: ActivityRegistry, name: string, email: string)
    returns (first: Response, second: Response)
    requires registry.Valid()
    modifies registry
    ensures first.Ok? <==> name in old(registry.activities) && email in old(registry.activities)[name].participants
    ensures first.Ok? ==> second == Failed(NotFound(ParticipantNotFound))
    ensures first.Failed? ==> second == first
    ensures registry.Valid()
  {
    ghost var before := registry.activities;
    first := registry.UnregisterFromActivity(name, email);
    second := registry.UnregisterFromActivity(name, email);
    if first.Ok? {
      UnregisterTwiceNotFound(before, name, email);
    }
  }

  /**
   * The signup-and-unregister flow on the seeded "Chess Club": the new email
   * is appended and listed, a repeat is a conflict, unregistering restores
   * the seed exactly, a repeat unregister is NotFound, and an unknown club is
   * NotFound.
   */
  method ChessClubFlow()
    returns (signedUp: Response, listed: Registry, repeated: Response,
             unregistered: Response, restored: Registry, again: Response, unknown: Response)
    ensures signedUp == Ok(SignedUpMessage("tester@example.com", "Chess Club"))
    ensures "Chess Club" in listed
    ensures listed["Chess Club"].participants
      == ["michael@mergington.edu", "daniel@mergington.edu", "tester@example.com"]
    ensures repeated == Failed(Conflict("Student already signed up for this activity"))
    ensures repeated.error.StatusCode() == 400
    ensures unregistered == Ok(UnregisteredMessage("tester@example.com", "Chess Club"))
    ensures restored == SeedActivities()
    ensures again == Failed(NotFound("Participant not found in this activity"))
    ensures unknown == Failed(NotFound("Activity not found")) && unknown.error.StatusCode() == 404
  {
    var registry := new ActivityRegistry();
    var tester := "tester@example.com";
    ghost var seed := registry.activities;
    assert tester !in seed["Chess Club"].participants by {
      assert tester[0] != "michael@mergington.edu"[0];
      assert tester[0] != "daniel@mergington.edu"[0];
    }
    SignupAppends(seed, "Chess Club", tester);
    SignupTwiceConflicts(seed, "Chess Club", tester);
    SignupThenUnregister(seed, "Chess Club", tester);
    ghost var mid := Signup(seed, "Chess Club", tester).registry;
    assert WellFormed(mid) by { SignupPreservesWellFormed(seed, "Chess Club", tester); }
    assert tester in mid["Chess Club"].participants;
    UnregisterTwiceNotFound(mid, "Chess Club", tester);
    SignupFailures(seed, "Unknown Club", "x@y.com");

    signedUp := registry.SignupForActivity("Chess Club", tester);
    listed := registry.GetActivities();
    repeated := registry.SignupForActivity("Chess Club", tester);
    unregistered := registry.UnregisterFromActivity("Chess Club", tester);
    restored := registry.GetActivities();
    again := registry.UnregisterFromActivity("Chess Club", tester);
    unknown := registry.SignupForActivity("Unknown Club", "x@y.com");
  }
}
