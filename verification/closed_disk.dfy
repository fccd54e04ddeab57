/** What the engine guarantees on a closed disk: one where every room a
    choice enters exists. Suppose, in addition, that every room offers at
    least one choice, so the choices in force always belong to the current
    room. Then, once a room has been entered, no input line can make the
    engine report a missing room or leave the disk's rooms. */
module ClosedDisk {
  import opened Options
  import opened JsText
  import opened TextEngine

  /** The room a choice enters when selected, if any (the `outcome` handler
      is the one that runs when present). */
  function Target(c: Choice): Option<string> {
    if c.outcome.Some? then c.outcome.value.enter
    else if c.action.Some? then c.action.value.enter
    else None
  }

  /** Every transition of the disk names one of its rooms. */
  predicate Closed(rooms: seq<Room>) {
    forall i, k :: 0 <= i < |rooms| && 0 <= k < |rooms[i].choices| && Target(rooms[i].choices[k]).Some? ==>
      FindRoom(rooms, Target(rooms[i].choices[k]).value).Some?
  }

  /** Every room offers at least one choice. */
  predicate Choosing(rooms: seq<Room>) {
    forall i :: 0 <= i < |rooms| ==> |rooms[i].choices| > 0
  }

  /** Every room offers exactly `n` choices. */
  predicate Offers(rooms: seq<Room>, n: nat) {
    forall i :: 0 <= i < |rooms| ==> |rooms[i].choices| == n
  }

  /** The engine runs a loaded copy of `rooms`, sits in one of its rooms,
      and has that room's choices in force. */
  predicate OnDisk(e: Engine, rooms: seq<Room>) {
    && e.disk.rooms == ResetVisits(rooms)
    && e.disk.roomId.Some?
    && FindRoom(rooms, e.disk.roomId.value).Some?
    && e.currentChoices == Some(rooms[FindRoom(rooms, e.disk.roomId.value).value].choices)
  }

  /** Every choice of the disk has an `outcome` handler. */
  predicate Narrating(rooms: seq<Room>) {
    forall i, k :: 0 <= i < |rooms| && 0 <= k < |rooms[i].choices| ==> rooms[i].choices[k].outcome.Some?
  }

  /** On a disk whose rooms all offer `count` choices, each with an
      `outcome`, every number from 1 to `count` selects a choice, and the
      echo is followed by that choice's narration. */
  lemma NumbersRun(e: Engine, rooms: seq<Room>, r: Reading, n: int, count: nat)
    requires OnDisk(e, rooms) && Offers(rooms, count) && Narrating(rooms)
    requires r.Text? && r.number == Some(n) && 1 <= n <= count
    ensures ReadingSelects(e, r, n)
    ensures Step(e, r).1[..2] == [Echo(r.value), Narrated]
  {
    var i := FindRoom(rooms, e.disk.roomId.value).value;
    assert Offered(e) == rooms[i].choices;
    var c := rooms[i].choices[n - 1];
    assert c.outcome.Some?;
    var out := RunScript(e, c.outcome.value).1;
    assert Dispatch(e, n).1 == out && out[0] == Narrated;
  }

  /** On a disk whose rooms all offer `n` choices, `n` choices are in force. */
  lemma OfferedOnDisk(e: Engine, rooms: seq<Room>, n: nat)
    requires OnDisk(e, rooms) && Offers(rooms, n)
    ensures |Offered(e)| == n
  {
  }

  /** Looking up a room in the loaded copy finds the same position. */
  lemma FindInLoaded(rooms: seq<Room>, id: string)
    ensures FindRoom(ResetVisits(rooms), id) == FindRoom(rooms, id)
  {
    FindRoomSameIds(ResetVisits(rooms), rooms, id);
  }

  /** Entering a room the disk defines, when every room has choices, puts
      the engine in that room with its choices in force. */
  lemma EnterKeepsDisk(e: Engine, rooms: seq<Room>, id: string)
    requires e.disk.rooms == ResetVisits(rooms)
    requires Choosing(rooms)
    requires FindRoom(rooms, id).Some?
    ensures OnDisk(EnterRoom(e, id).0, rooms)
    ensures EnterRoom(e, id).0.disk.roomId == Some(id)
    ensures RoomNotFound !in EnterRoom(e, id).1
  {
    var i := FindRoom(rooms, id).value;
    FindInLoaded(rooms, id);
    var room := ResetVisits(rooms)[i];
    assert room.choices == rooms[i].choices && |room.choices| > 0;
    assert GetRoom(e.disk.rooms, id) == Some(room);
    var d := e.disk.(roomId := Some(id));
    assert EnterRoom(e, id) == (Engine(d, Some(room.choices)), [RoomShown(id), ChoicesListed(|room.choices|)]);
  }

  /** Running one of the current room's choices keeps the engine on a
      closed disk and never reports a missing room. */
  lemma ChoiceKeepsDisk(e: Engine, rooms: seq<Room>, c: Choice)
    requires OnDisk(e, rooms) && Closed(rooms) && Choosing(rooms)
    requires c in rooms[FindRoom(rooms, e.disk.roomId.value).value].choices
    ensures OnDisk(RunChoice(e, c).0, rooms)
    ensures RoomNotFound !in RunChoice(e, c).1
  {
    var i := FindRoom(rooms, e.disk.roomId.value).value;
    var k :| 0 <= k < |rooms[i].choices| && rooms[i].choices[k] == c;
    if Target(c).Some? {
      EnterKeepsDisk(e, rooms, Target(c).value);
    }
  }

  /** Whatever line the player types, an engine on a closed disk stays on
      it and never reports a missing room. */
  lemma StepKeepsDisk(e: Engine, rooms: seq<Room>, r: Reading)
    requires OnDisk(e, rooms) && Closed(rooms) && Choosing(rooms)
    ensures OnDisk(Step(e, r).0, rooms)
    ensures RoomNotFound !in Step(e, r).1
  {
    if r.Text? && r.number.Some? && 1 <= r.number.value <= |Offered(e)| {
      var c := Offered(e)[r.number.value - 1];
      ChoiceKeepsDisk(e, rooms, c);
      assert Step(e, r) == (RunChoice(e, c).0, [Echo(r.value)] + RunChoice(e, c).1);
    } else {
      assert Step(e, r).0 == e;
    }
  }

  /** The engine fed a sequence of input lines, with everything printed. */
  function Session(e: Engine, lines: seq<string>): (Engine, seq<Event>)
    decreases |lines|
  {
    if lines == [] then (e, [])
    else
      var (e1, out1) := ApplyInput(e, lines[0]);
      var (e2, out2) := Session(e1, lines[1..]);
      (e2, out1 + out2)
  }

  lemma {:induction false} SessionKeepsDisk(e: Engine, rooms: seq<Room>, lines: seq<string>)
    requires OnDisk(e, rooms) && Closed(rooms) && Choosing(rooms)
    ensures OnDisk(Session(e, lines).0, rooms)
    ensures RoomNotFound !in Session(e, lines).1
    decreases |lines|
  {
    if lines != [] {
      StepKeepsDisk(e, rooms, Read(lines[0]));
      SessionKeepsDisk(ApplyInput(e, lines[0]).0, rooms, lines[1..]);
    }
  }
}
