/** The shipped story disk, "Echoes in Neon": six rooms, each offering four
    choices, whose handlers either only narrate or narrate and then enter
    another room. Only the room graph is kept; names, descriptions and
    narration are left out. The lemmas show the graph is well formed and
    that the engine, once the disk is loaded, never reports a missing room
    whatever the player types. */
module StoryDisk {
  import opened Options
  import opened JsText
  import opened TextEngine
  import opened ClosedDisk

  /** A choice whose `outcome` narrates and enters room `t`. */
  function Go(t: string): Choice {
    Choice(Some(Script(Some(t))), None)
  }

  /** A choice whose `outcome` only narrates. */
  const Stay := Choice(Some(Script(None)), None)

  const Rooms: seq<Room> := [
    Room("office", None, [Go("fileExamined"), Go("floodedDistrict"), Stay, Stay]),
    Room("fileExamined", None, [Go("floodedDistrict"), Go("floodedDistrict"), Stay, Go("floodedDistrict")]),
    Room("floodedDistrict", None, [Stay, Go("echoEncounter"), Go("serverHub"), Stay]),
    Room("echoEncounter", None, [Stay, Go("serverHub"), Stay, Stay]),
    Room("serverHub", None, [Stay, Stay, Go("finalChoice"), Go("finalChoice")]),
    Room("finalChoice", None, [Stay, Stay, Stay, Stay])
  ]

  const Story := Disk(Some("office"), Rooms)

  /** Room `a` has a choice that enters room `b`. */
  predicate Leads(rooms: seq<Room>, a: nat, b: string)
    requires a < |rooms|
  {
    exists k :: 0 <= k < |rooms[a].choices| && Target(rooms[a].choices[k]) == Some(b)
  }

  /** The starting room is one of the disk's rooms. */
  lemma StartRoomDefined()
    ensures GetRoom(Rooms, "office").Some?
    ensures FindRoom(Rooms, "office") == Some(0)
  {
  }

  /** No two rooms share an id. */
  lemma IdsDistinct()
    ensures forall i, j :: 0 <= i < j < |Rooms| ==> Rooms[i].id != Rooms[j].id
  {
  }

  /** Every room offers exactly four choices. */
  lemma FourChoicesEverywhere()
    ensures forall i :: 0 <= i < |Rooms| ==> |Rooms[i].choices| == 4
  {
  }

  /** Where each room sits in the list. */
  lemma Positions()
    ensures FindRoom(Rooms, "office") == Some(0)
    ensures FindRoom(Rooms, "fileExamined") == Some(1)
    ensures FindRoom(Rooms, "floodedDistrict") == Some(2)
    ensures FindRoom(Rooms, "echoEncounter") == Some(3)
    ensures FindRoom(Rooms, "serverHub") == Some(4)
    ensures FindRoom(Rooms, "finalChoice") == Some(5)
  {
    IdsDistinct();
    FindRoomAt(Rooms, 0);
    FindRoomAt(Rooms, 1);
    FindRoomAt(Rooms, 2);
    FindRoomAt(Rooms, 3);
    FindRoomAt(Rooms, 4);
    FindRoomAt(Rooms, 5);
  }

  /** A choice that enters the room at position `j` resolves to it. */
  lemma Resolves(j: nat)
    requires j < |Rooms|
    ensures FindRoom(Rooms, Rooms[j].id) == Some(j)
  {
    IdsDistinct();
    FindRoomAt(Rooms, j);
  }

  /** Every room a choice enters exists, and it lies further down the list
      of rooms than the room offering the choice. */
  lemma TransitionsResolveForward(i: nat, k: nat)
    requires i < |Rooms| && k < |Rooms[i].choices|
    requires Target(Rooms[i].choices[k]).Some?
    ensures var t := Target(Rooms[i].choices[k]).value;
      FindRoom(Rooms, t).Some? && FindRoom(Rooms, t).value > i
  {
    var j := TargetPosition(i, k);
    Resolves(j);
  }

  /** The position of the room a choice enters, found room by room. */
  lemma TargetPosition(i: nat, k: nat) returns (j: nat)
    requires i < |Rooms| && k < |Rooms[i].choices|
    requires Target(Rooms[i].choices[k]).Some?
    ensures i < j < |Rooms| && Target(Rooms[i].choices[k]) == Some(Rooms[j].id)
  {
    var c := Rooms[i].choices[k];
    if i == 0 {
      j := if k == 0 then 1 else 2;
    } else if i == 1 {
      j := 2;
    } else if i == 2 {
      j := if k == 1 then 3 else 4;
    } else if i == 3 {
      j := 4;
    } else {
      j := 5;
    }
  }

  /** The final room is terminal: none of its choices enters a room. */
  lemma FinalChoiceTerminal()
    ensures FindRoom(Rooms, "finalChoice") == Some(5)
    ensures forall k :: 0 <= k < |Rooms[5].choices| ==> Target(Rooms[5].choices[k]).None?
  {
  }

  /** A walk through the room graph, given as room positions. */
  predicate IsPath(p: seq<nat>) {
    Walk(Rooms, p)
  }

  /** `p` lists positions of `rooms`, each with a choice entering the next. */
  predicate Walk(rooms: seq<Room>, p: seq<nat>) {
    && (forall j :: 0 <= j < |p| ==> p[j] < |rooms|)
    && (forall j :: 0 <= j < |p| - 1 ==> p[j] < |rooms| && Leads(rooms, p[j], rooms[p[j + 1]].id))
  }

  /** Every transition of `rooms` leads further down the list. */
  predicate Forward(rooms: seq<Room>) {
    forall a: nat, b: nat :: a < |rooms| && b < |rooms| && Leads(rooms, a, rooms[b].id) ==> a < b
  }

  /** A single transition of the story leads further down the list of rooms. */
  lemma StepForward(a: nat, b: nat)
    requires a < |Rooms| && b < |Rooms|
    requires Leads(Rooms, a, Rooms[b].id)
    ensures a < b
  {
    var k :| 0 <= k < |Rooms[a].choices| && Target(Rooms[a].choices[k]) == Some(Rooms[b].id);
    TransitionsResolveForward(a, k);
    IdsDistinct();
    FindRoomAt(Rooms, b);
  }

  /** On rooms whose transitions all lead forward, the positions along a
      walk strictly increase. */
  lemma {:induction false} WalkIncreases(rooms: seq<Room>, p: seq<nat>)
    requires Forward(rooms) && Walk(rooms, p) && |p| >= 2
    ensures p[0] < p[|p| - 1]
    decreases |p|
  {
    assert p[0] < p[1];
    if |p| > 2 {
      var q := p[1..];
      assert forall j :: 0 <= j < |q| ==> q[j] == p[j + 1];
      assert Walk(rooms, q);
      WalkIncreases(rooms, q);
    }
  }

  /** Along any walk through the story the room positions strictly increase. */
  lemma PathIncreases(p: seq<nat>)
    requires IsPath(p) && |p| >= 2
    ensures p[0] < p[|p| - 1]
  {
    forall a: nat, b: nat | a < |Rooms| && b < |Rooms| && Leads(Rooms, a, Rooms[b].id)
      ensures a < b
    {
      StepForward(a, b);
    }
    WalkIncreases(Rooms, p);
  }

  /** The room graph is acyclic: no walk of one step or more returns to
      the room it started from. */
  lemma Acyclic(p: seq<nat>)
    requires IsPath(p) && |p| >= 2
    ensures p[0] != p[|p| - 1]
  {
    PathIncreases(p);
  }

  /** The final room is reachable from the start: office, flooded district,
      server hub, final choice. */
  lemma FinalChoiceReachable()
    ensures IsPath([0, 2, 4, 5])
    ensures Rooms[0].id == "office" && Rooms[5].id == "finalChoice"
  {
    assert Target(Rooms[0].choices[1]) == Some("floodedDistrict");
    assert Target(Rooms[2].choices[2]) == Some("serverHub");
    assert Target(Rooms[4].choices[2]) == Some("finalChoice");
  }

  // ---------------------------------------------------------------------
  // the story disk in the engine

  /** The story disk is closed and offers four choices everywhere. */
  lemma StoryClosed()
    ensures Closed(Rooms) && Offers(Rooms, 4)
  {
    FourChoicesEverywhere();
    forall i, k | 0 <= i < |Rooms| && 0 <= k < |Rooms[i].choices| && Target(Rooms[i].choices[k]).Some?
      ensures FindRoom(Rooms, Target(Rooms[i].choices[k]).value).Some?
    {
      TransitionsResolveForward(i, k);
    }
  }


  /** Loading the story enters the office, whatever state the page was in. */
  lemma LoadStory(e: Engine)
    ensures OnDisk(LoadDisk(e, Story).0, Rooms)
    ensures LoadDisk(e, Story).0.disk.roomId == Some("office")
    ensures RoomNotFound !in LoadDisk(e, Story).1
  {
    StartRoomDefined();
    StoryClosed();
    var loaded := Engine(Story.(rooms := ResetVisits(Rooms)), e.currentChoices);
    EnterKeepsDisk(loaded, Rooms, "office");
  }

  /** Every number from 1 to 4 selects a choice in every room of the
      story, and that choice's narration is printed. */
  lemma EveryChoiceAccepted(e: Engine, r: Reading, n: int)
    requires OnDisk(e, Rooms)
    requires r.Text? && r.number == Some(n) && 1 <= n <= 4
    ensures ReadingSelects(e, r, n)
    ensures Step(e, r).1[..2] == [Echo(r.value), Narrated]
  {
    FourChoicesEverywhere();
    StoryNarrates();
    NumbersRun(e, Rooms, r, n, 4);
  }

  /** Every choice of the story has an `outcome` handler. */
  lemma StoryNarrates()
    ensures Narrating(Rooms)
  {
    forall i, k | 0 <= i < |Rooms| && 0 <= k < |Rooms[i].choices|
      ensures Rooms[i].choices[k].outcome.Some?
    {
      assert Rooms[i].choices[k] == Stay || Rooms[i].choices[k].outcome.value.enter.Some?;
    }
  }

  /** On this disk the engine never prints "Room not found": neither when
      loading nor for any sequence of input lines afterwards. */
  lemma NeverRoomNotFound(e: Engine, lines: seq<string>)
    ensures RoomNotFound !in LoadDisk(e, Story).1
    ensures RoomNotFound !in Session(LoadDisk(e, Story).0, lines).1
  {
    LoadStory(e);
    StoryClosed();
    SessionKeepsDisk(LoadDisk(e, Story).0, Rooms, lines);
  }
}
