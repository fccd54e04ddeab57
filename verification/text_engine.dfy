/** The choice-based text-adventure engine: a disk holds rooms, each room
    offers numbered choices, and the player types the number of a choice.
    The engine state is the loaded disk (whose `roomId` records the current
    room) together with the choices currently offered. Everything the
    engine prints is an output event; the prose itself is not modelled. */
module TextEngine {
  import opened Options
  import opened JsText

  /** What a choice's handler does after printing its narration: possibly
      enter another room. */
  datatype Script = Script(enter: Option<string>)

  /** A choice may carry an `outcome` handler, an `action` handler, both or
      neither; the engine prefers `outcome`. */
  datatype Choice = Choice(outcome: Option<Script>, action: Option<Script>)

  /** A room: its id, its visit counter (`None` until a disk is loaded)
      and its choices (an absent list is the empty list). */
  datatype Room = Room(id: string, visits: Option<int>, choices: seq<Choice>)

  /** A disk: the id of the room to start in (JavaScript `undefined` is
      `None`) and its rooms. */
  datatype Disk = Disk(roomId: Option<string>, rooms: seq<Room>)

  /** The loaded disk and the choices in force (`window.currentChoices`,
      `None` until a room with choices has been entered). */
  datatype Engine = Engine(disk: Disk, currentChoices: Option<seq<Choice>>)

  /** The lines the engine prints, one event per `println` call or group. */
  datatype Event =
    | Welcome                    // the title banner and instructions
    | NoStartingRoom             // 'Error: No starting room defined.'
    | RoomNotFound               // 'Error: Room not found.'
    | RoomShown(id: string)      // the room's title and description
    | ChoicesListed(count: nat)  // 'What do you do?' and the numbered list
    | NoChoicesHere              // '[No choices available]'
    | Echo(input: string)        // '> input'
    | NotANumber                 // 'Please enter a number ...'
    | NoActiveChoices            // 'No choices available at this time.'
    | InvalidChoice(count: nat)  // 'Invalid choice. Please select ... 1 and count.'
    | Narrated                   // the narration a handler prints
    | NoOutcome                  // 'This choice has no outcome defined.'

  /** The position of the first room with the given id. */
  function FindRoom(rooms: seq<Room>, id: string): (r: Option<nat>)
    ensures r.Some? ==> r.value < |rooms| && rooms[r.value].id == id
    ensures r.Some? ==> forall j :: 0 <= j < r.value ==> rooms[j].id != id
    ensures r.None? <==> forall j :: 0 <= j < |rooms| ==> rooms[j].id != id
  {
    if rooms == [] then None
    else if rooms[0].id == id then Some(0)
    else match FindRoom(rooms[1..], id)
      case None => None
      case Some(k) => Some(k + 1)
  }

  /** A room whose id no earlier room carries is the one found. */
  lemma FindRoomAt(rooms: seq<Room>, i: nat)
    requires i < |rooms|
    requires forall j :: 0 <= j < i ==> rooms[j].id != rooms[i].id
    ensures FindRoom(rooms, rooms[i].id) == Some(i)
  {
  }

  /** `getRoom`: the first room whose id is `id`, if any. */
  function GetRoom(rooms: seq<Room>, id: string): (r: Option<Room>)
    ensures r.Some? <==> exists j :: 0 <= j < |rooms| && rooms[j].id == id
    ensures r.Some? ==> exists j :: (0 <= j < |rooms| && rooms[j] == r.value && r.value.id == id
      && forall i :: 0 <= i < j ==> rooms[i].id != id)
  {
    match FindRoom(rooms, id)
    case None => None
    case Some(k) => Some(rooms[k])
  }

  /** `enterRoom`: with an unknown id only an error is printed. Otherwise
      the disk's current room becomes `id`, the room is shown, and if it
      has choices they become the choices in force; a room without choices
      leaves the previous ones in force. */
  function EnterRoom(e: Engine, id: string): (r: (Engine, seq<Event>))
    ensures GetRoom(e.disk.rooms, id).None? ==> r == (e, [RoomNotFound])
    ensures GetRoom(e.disk.rooms, id).Some? ==>
      var room := GetRoom(e.disk.rooms, id).value;
      && r.0.disk == e.disk.(roomId := Some(id))
      && r.0.currentChoices == (if |room.choices| > 0 then Some(room.choices) else e.currentChoices)
      && r.1 == [RoomShown(id), if |room.choices| > 0 then ChoicesListed(|room.choices|) else NoChoicesHere]
  {
    match GetRoom(e.disk.rooms, id)
    case None => (e, [RoomNotFound])
    case Some(room) =>
      var d := e.disk.(roomId := Some(id));
      if |room.choices| > 0 then
        (Engine(d, Some(room.choices)), [RoomShown(id), ChoicesListed(|room.choices|)])
      else
        (Engine(d, e.currentChoices), [RoomShown(id), NoChoicesHere])
  }

  /** Runs a handler: its narration, then the room it enters, if any. */
  function RunScript(e: Engine, s: Script): (r: (Engine, seq<Event>))
    ensures |r.1| >= 1 && r.1[0] == Narrated
    ensures s.enter.None? ==> r.0 == e
    ensures s.enter.Some? ==> r == (EnterRoom(e, s.enter.value).0, [Narrated] + EnterRoom(e, s.enter.value).1)
  {
    match s.enter
    case None => (e, [Narrated])
    case Some(id) =>
      var (e', out) := EnterRoom(e, id);
      (e', [Narrated] + out)
  }

  /** Runs a selected choice, preferring its `outcome` over its `action`. */
  function RunChoice(e: Engine, c: Choice): (r: (Engine, seq<Event>))
    ensures c.outcome.Some? ==> r == RunScript(e, c.outcome.value)
    ensures c.outcome.None? && c.action.Some? ==> r == RunScript(e, c.action.value)
    ensures c.outcome.None? && c.action.None? ==> r == (e, [NoOutcome])
    ensures |r.1| >= 1 && r.1[0] in {Narrated, NoOutcome}
  {
    if c.outcome.Some? then RunScript(e, c.outcome.value)
    else if c.action.Some? then RunScript(e, c.action.value)
    else (e, [NoOutcome])
  }

  /** The choices in force, empty when none has been set. */
  function Offered(e: Engine): seq<Choice> {
    e.currentChoices.GetOr([])
  }

  /** The choice number an input line selects, if the engine accepts it:
      the trimmed line parses to `n` and `1 <= n <= |Offered(e)|`. */
  predicate Selects(e: Engine, line: string, n: int) {
    ParseInt(Trim(line)) == Some(n) && 1 <= n <= |Offered(e)|
  }

  /** The validation of a parsed number `n`: with no choices in force, or
      with `n` outside `1..count`, an error is printed and nothing changes;
      otherwise choice `n - 1` runs. */
  function Dispatch(e: Engine, n: int): (r: (Engine, seq<Event>))
    ensures Offered(e) == [] ==> r == (e, [NoActiveChoices])
    ensures Offered(e) != [] && !(1 <= n <= |Offered(e)|) ==> r == (e, [InvalidChoice(|Offered(e)|)])
    ensures 1 <= n <= |Offered(e)| ==> r == RunChoice(e, Offered(e)[n - 1])
  {
    var choices := Offered(e);
    if |choices| == 0 then (e, [NoActiveChoices])
    else if n < 1 || n > |choices| then (e, [InvalidChoice(|choices|)])
    else RunChoice(e, choices[n - 1])
  }

  /** An input line as `applyInput` reads it: blank after trimming, or
      the trimmed text with what `parseInt(value, 10)` makes of it. */
  datatype Reading = Blank | Text(value: string, number: Option<int>)

  /** Trims the line and parses the rest. */
  function Read(line: string): (r: Reading)
    ensures r.Blank? <==> AllSpace(line)
    ensures r.Text? ==> r.value == Trim(line) && r.value != [] && r.number == ParseInt(r.value)
  {
    var value := Trim(line);
    if value == [] then Blank else Text(value, ParseInt(value))
  }

  /** What the engine does with a line once read: a blank line prints
      nothing and changes nothing; any other line is echoed, NaN prints an
      error and changes nothing, and a number goes on to validation. */
  function Step(e: Engine, r: Reading): (o: (Engine, seq<Event>))
    ensures r.Blank? ==> o == (e, [])
    ensures r.Text? ==> |o.1| >= 2 && o.1[0] == Echo(r.value)
    ensures r.Text? && r.number.None? ==> o == (e, [Echo(r.value), NotANumber])
    ensures r.Text? && r.number.Some? ==>
      o == (Dispatch(e, r.number.value).0, [Echo(r.value)] + Dispatch(e, r.number.value).1)
  {
    match r
    case Blank => (e, [])
    case Text(value, None) => (e, [Echo(value), NotANumber])
    case Text(value, Some(n)) =>
      var (e', out) := Dispatch(e, n);
      (e', [Echo(value)] + out)
  }

  /** `applyInput`: trim, `parseInt`, validate, dispatch. */
  function ApplyInput(e: Engine, line: string): (r: (Engine, seq<Event>))
    ensures AllSpace(line) <==> r.1 == []
    ensures AllSpace(line) ==> r.0 == e
    ensures !AllSpace(line) ==> r.1[0] == Echo(Trim(line))
  {
    Step(e, Read(line))
  }

  /** A reading selects choice `n` when it is the number `n` and
      `1 <= n <= count` for the choices in force. */
  predicate ReadingSelects(e: Engine, r: Reading, n: int) {
    r.Text? && r.number == Some(n) && 1 <= n <= |Offered(e)|
  }

  /** A line selects choice `n` exactly when its reading does. */
  lemma SelectsByReading(e: Engine, line: string, n: int)
    ensures Selects(e, line, n) <==> ReadingSelects(e, Read(line), n)
  {
    if Trim(line) == [] {
      assert ParseInt(Trim(line)) == None;
    }
  }

  /** A choice handler runs (its narration or the missing-outcome notice is
      printed) exactly when the reading selects an offered choice, and the
      engine state changes only then. */
  lemma StepRunsOnlySelected(e: Engine, r: Reading)
    ensures (exists n :: ReadingSelects(e, r, n)) <==> (|Step(e, r).1| >= 2 && Step(e, r).1[1] in {Narrated, NoOutcome})
    ensures (forall n :: !ReadingSelects(e, r, n)) ==> Step(e, r).0 == e
  {
    if r.Text? && r.number.Some? && 1 <= r.number.value <= |Offered(e)| {
      assert ReadingSelects(e, r, r.number.value);
    }
  }

  /** The same for input lines: a choice runs and the state changes only
      when the trimmed line parses to the number of an offered choice. */
  lemma RunsOnlySelected(e: Engine, line: string)
    ensures var r := ApplyInput(e, line);
      (exists n :: Selects(e, line, n)) <==> (|r.1| >= 2 && r.1[1] in {Narrated, NoOutcome})
    ensures (forall n :: !Selects(e, line, n)) ==> ApplyInput(e, line).0 == e
  {
    var rd := Read(line);
    StepRunsOnlySelected(e, rd);
    assert ApplyInput(e, line) == Step(e, rd);
    if n :| Selects(e, line, n) {
      SelectsByReading(e, line, n);
    }
    if n :| ReadingSelects(e, rd, n) {
      SelectsByReading(e, line, n);
    }
  }

  /** An input line whose trimmed text parses to an offered choice number
      runs that choice: `"2abc"` selects choice 2 just as `" 2 "` does. */
  lemma SelectedChoiceRuns(e: Engine, line: string, n: int)
    requires Selects(e, line, n)
    ensures ApplyInput(e, line) ==
      (RunChoice(e, Offered(e)[n - 1]).0, [Echo(Trim(line))] + RunChoice(e, Offered(e)[n - 1]).1)
  {
    SelectsByReading(e, line, n);
  }

  /** Every room with its visit counter set to zero. */
  function ResetVisits(rooms: seq<Room>): (r: seq<Room>)
    ensures |r| == |rooms|
    ensures forall i :: 0 <= i < |r| ==> r[i] == rooms[i].(visits := Some(0))
  {
    seq(|rooms|, i requires 0 <= i < |rooms| => rooms[i].(visits := Some(0)))
  }

  /** The search for a room looks only at the ids. */
  lemma FindRoomSameIds(a: seq<Room>, b: seq<Room>, id: string)
    requires |a| == |b|
    requires forall i :: 0 <= i < |a| ==> a[i].id == b[i].id
    ensures FindRoom(a, id) == FindRoom(b, id)
  {
    var fa, fb := FindRoom(a, id), FindRoom(b, id);
    if fa.Some? && fb.Some? {
      assert !(fa.value < fb.value) && !(fb.value < fa.value);
    }
  }

  /** A JavaScript string is truthy when it is defined and not empty. */
  predicate Defined(id: Option<string>) {
    id.Some? && id.value != []
  }

  /** `loadDisk`: the disk is installed with every visit counter at zero,
      the banner is printed, and the disk's starting room is entered when
      it names one. The choices in force are a page-wide global that
      loading does not clear. */
  function LoadDisk(e: Engine, d: Disk): (r: (Engine, seq<Event>))
    ensures |r.0.disk.rooms| == |d.rooms|
    ensures forall i :: 0 <= i < |d.rooms| ==>
      r.0.disk.rooms[i].visits == Some(0) && r.0.disk.rooms[i] == d.rooms[i].(visits := Some(0))
    ensures |r.1| >= 2 && r.1[0] == Welcome
    ensures !Defined(d.roomId) ==> r == (Engine(d.(rooms := ResetVisits(d.rooms)), e.currentChoices), [Welcome, NoStartingRoom])
    ensures Defined(d.roomId) ==>
      var loaded := Engine(d.(rooms := ResetVisits(d.rooms)), e.currentChoices);
      r == (EnterRoom(loaded, d.roomId.value).0, [Welcome] + EnterRoom(loaded, d.roomId.value).1)
  {
    var loaded := Engine(d.(rooms := ResetVisits(d.rooms)), e.currentChoices);
    if Defined(d.roomId) then
      var (e', out) := EnterRoom(loaded, d.roomId.value);
      (e', [Welcome] + out)
    else (loaded, [Welcome, NoStartingRoom])
  }

  /** Entering a room never changes the rooms of the disk. */
  lemma EnterRoomKeepsRooms(e: Engine, id: string)
    ensures EnterRoom(e, id).0.disk.rooms == e.disk.rooms
  {
  }

  /** Entering a known room and then asking for the current room gives
      that room back: `getRoom(disk.roomId)` after `enterRoom(id)`. */
  lemma EnterThenGetRoom(e: Engine, id: string)
    requires GetRoom(e.disk.rooms, id).Some?
    ensures var e' := EnterRoom(e, id).0;
      e'.disk.roomId == Some(id) && GetRoom(e'.disk.rooms, id) == GetRoom(e.disk.rooms, id)
  {
  }
}
