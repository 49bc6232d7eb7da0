/** The recognition session: the per-face match-and-log step and the frame
    loop with its three exits.

    Camera, detection and `compare_faces` are not modelled. Each detected
    face arrives as its match vector (one boolean per gallery entry, true
    when that entry is within tolerance) together with the date the clock
    gives when the face is handled; each frame arrives as a read-success
    flag, its faces, and whether the quit key was pressed after it. */
module Session {
  import opened Wrappers

  type Name = string
  type Date = string

  /** The label of a face that matches no gallery entry. */
  const UNKNOWN: Name := "Unknown"

  datatype Face = Face(matches: seq<bool>, today: Date)

  datatype Frame = Frame(readOk: bool, faces: seq<Face>, quit: bool)

  // ---------------------------------------------------------------------------
  // The session log: an insertion-ordered dictionary name -> date
  // ---------------------------------------------------------------------------

  /** `logged_today`. `order` lists the keys in first-insertion order (the
      order the report later walks them in); `dates` holds the values. */
  datatype Log = Log(order: seq<Name>, dates: map<Name, Date>)

  predicate ValidLog(log: Log) {
    && (forall i, j | 0 <= i < j < |log.order| :: log.order[i] != log.order[j])
    && (forall n | n in log.dates :: n in log.order)
    && (forall i | 0 <= i < |log.order| :: log.order[i] in log.dates)
  }

  const EmptyLog: Log := Log([], map[])

  /** `logged_today.get(name)`. */
  function Get(log: Log, n: Name): Option<Date> {
    if n in log.dates then Some(log.dates[n]) else None
  }

  /** `logged_today[name] = date`: a new key goes to the end, an existing key
      keeps its position. */
  function Put(log: Log, n: Name, d: Date): (r: Log)
    ensures Get(r, n) == Some(d)
    ensures forall m | m != n :: Get(r, m) == Get(log, m)
    ensures log.dates.Keys <= r.dates.Keys
    ensures log.order <= r.order
    ensures ValidLog(log) ==> ValidLog(r)
  {
    Log(if n in log.order then log.order else log.order + [n], log.dates[n := d])
  }

  /** The log only ever gains keys, and keys keep their positions. */
  predicate Extends(before: Log, after: Log) {
    before.dates.Keys <= after.dates.Keys && before.order <= after.order
  }

  /** The names logged with date `d`. */
  function LoggedOn(log: Log, d: Date): set<Name> {
    set n | n in log.dates && log.dates[n] == d
  }

  // ---------------------------------------------------------------------------
  // Matching one face
  // ---------------------------------------------------------------------------

  /** `matches.index(True)`, or None when `True in matches` is false. */
  function FirstMatch(matches: seq<bool>): (r: Option<nat>)
    ensures r.None? <==> forall i | 0 <= i < |matches| :: !matches[i]
    ensures r.Some? ==> r.value < |matches| && matches[r.value]
    ensures r.Some? ==> forall j | 0 <= j < r.value :: !matches[j]
    decreases |matches|
  {
    if |matches| == 0 then None
    else if matches[0] then Some(0)
    else
      match FirstMatch(matches[1..])
      case None => None
      case Some(i) => Some(i + 1)
  }

  /** The gallery name a face is identified as, None for an unknown face. The
      first matching gallery entry wins, not the closest one. */
  function Identify(names: seq<Name>, matches: seq<bool>): (r: Option<Name>)
    requires |matches| == |names|
    ensures r.None? <==> forall i | 0 <= i < |matches| :: !matches[i]
    ensures forall i | 0 <= i < |matches| && matches[i] && (forall j | 0 <= j < i :: !matches[j])
              :: r == Some(names[i])
    ensures r.Some? ==> r.value in names
  {
    match FirstMatch(matches)
    case None => None
    case Some(i) => Some(names[i])
  }

  /** The text drawn next to a face. */
  function Label(names: seq<Name>, matches: seq<bool>): (shown: Name)
    requires |matches| == |names|
    ensures (forall i | 0 <= i < |matches| :: !matches[i]) ==> shown == UNKNOWN
    ensures forall i | 0 <= i < |matches| && matches[i] && (forall j | 0 <= j < i :: !matches[j])
              :: shown == names[i]
  {
    Identify(names, matches).GetOr(UNKNOWN)
  }

  // ---------------------------------------------------------------------------
  // The per-face step
  // ---------------------------------------------------------------------------

  /** The loop's mutable state: `logged_today` and the sticky `recognized`. */
  datatype State = State(log: Log, recognized: bool)

  const Fresh: State := State(EmptyLog, false)

  /** A newly logged detection: the "Access Granted" line and the optional
      notification that go with it. */
  datatype Event = Granted(name: Name, date: Date)

  datatype Progress = Progress(state: State, events: seq<Event>)

  function EventNames(events: seq<Event>): set<Name> {
    set i | 0 <= i < |events| :: events[i].name
  }

  /** Handling one detected face. */
  function ProcessFace(names: seq<Name>, st: State, face: Face): (r: Progress)
    requires |face.matches| == |names|
    ensures Identify(names, face.matches).None? ==> r == Progress(st, [])
    ensures Identify(names, face.matches).Some? ==>
              var n := Identify(names, face.matches).value;
              && Get(r.state.log, n) == Some(face.today)
              && (forall m | m != n :: Get(r.state.log, m) == Get(st.log, m))
              && (r.events == [] <==> Get(st.log, n) == Some(face.today))
              && (r.events != [] ==> r.events == [Granted(n, face.today)])
    ensures r.events == [] ==> r.state == st
    ensures r.state.recognized == (st.recognized || r.events != [])
    ensures Extends(st.log, r.state.log)
    ensures ValidLog(st.log) ==> ValidLog(r.state.log)
    ensures r.state.log.dates.Keys == st.log.dates.Keys + EventNames(r.events)
  {
    match Identify(names, face.matches)
    case None => Progress(st, [])
    case Some(n) =>
      if Get(st.log, n) != Some(face.today) then
        assert EventNames([Granted(n, face.today)]) == {n} by {
          assert [Granted(n, face.today)][0].name == n;
        }
        Progress(State(Put(st.log, n, face.today), true), [Granted(n, face.today)])
      else
        Progress(st, [])
  }

  /** Every match vector of these faces has one entry per gallery entry, as
      `compare_faces` guarantees. */
  predicate FacesFit(names: seq<Name>, faces: seq<Face>) {
    forall j | 0 <= j < |faces| :: |faces[j].matches| == |names|
  }

  /** The identified name of one face, as a set of at most one name. */
  function FaceName(names: seq<Name>, face: Face): set<Name>
    requires |face.matches| == |names|
  {
    match Identify(names, face.matches)
    case None => {}
    case Some(n) => {n}
  }

  /** The names the faces are identified as, unknown faces contributing none. */
  function MatchedNames(names: seq<Name>, faces: seq<Face>): set<Name>
    requires FacesFit(names, faces)
    decreases |faces|
  {
    if |faces| == 0 then {} else FaceName(names, faces[0]) + MatchedNames(names, faces[1..])
  }

  /** The inner `for` loop over the faces of one frame. */
  function ProcessFaces(names: seq<Name>, st: State, faces: seq<Face>): (r: Progress)
    requires FacesFit(names, faces)
    ensures r.events == [] ==> r.state == st
    ensures r.state.recognized == (st.recognized || r.events != [])
    ensures Extends(st.log, r.state.log)
    ensures ValidLog(st.log) ==> ValidLog(r.state.log)
    ensures EventNames(r.events) <= MatchedNames(names, faces)
    ensures r.state.log.dates.Keys == st.log.dates.Keys + EventNames(r.events)
    decreases |faces|
  {
    if |faces| == 0 then Progress(st, [])
    else
      var p := ProcessFace(names, st, faces[0]);
      var q := ProcessFaces(names, p.state, faces[1..]);
      assert EventNames(p.events + q.events) == EventNames(p.events) + EventNames(q.events) by {
        EventNamesAppend(p.events, q.events);
      }
      Progress(q.state, p.events + q.events)
  }

  lemma EventNamesAppend(a: seq<Event>, b: seq<Event>)
    ensures EventNames(a + b) == EventNames(a) + EventNames(b)
  {
    forall n | n in EventNames(a + b) ensures n in EventNames(a) + EventNames(b) {
      var i :| 0 <= i < |a + b| && (a + b)[i].name == n;
      if i >= |a| { assert b[i - |a|].name == n; }
    }
    forall n | n in EventNames(a) + EventNames(b) ensures n in EventNames(a + b) {
      if n in EventNames(a) {
        var i :| 0 <= i < |a| && a[i].name == n;
        assert (a + b)[i].name == n;
      } else {
        var i :| 0 <= i < |b| && b[i].name == n;
        assert (a + b)[|a| + i].name == n;
      }
    }
  }

  predicate DistinctNames(events: seq<Event>) {
    forall i, j | 0 <= i < j < |events| :: events[i].name != events[j].name
  }

  predicate OnDay(faces: seq<Face>, d: Date) {
    forall j | 0 <= j < |faces| :: faces[j].today == d
  }

  /** One face on day `d`: it logs its name unless that name already has
      date `d`, and afterwards the name has date `d`. */
  lemma FaceOnDay(names: seq<Name>, st: State, face: Face, d: Date)
    requires |face.matches| == |names|
    requires face.today == d
    ensures var p := ProcessFace(names, st, face);
      && |p.events| <= 1
      && (forall i | 0 <= i < |p.events| :: p.events[i].date == d)
      && EventNames(p.events) == FaceName(names, face) - LoggedOn(st.log, d)
      && LoggedOn(p.state.log, d) == LoggedOn(st.log, d) + FaceName(names, face)
  {
    var p := ProcessFace(names, st, face);
    match Identify(names, face.matches)
    case None =>
    case Some(n) =>
      forall m ensures m in LoggedOn(p.state.log, d) <==> m in LoggedOn(st.log, d) + {n} {
        assert m in LoggedOn(p.state.log, d) <==> Get(p.state.log, m) == Some(d);
        assert m in LoggedOn(st.log, d) <==> Get(st.log, m) == Some(d);
      }
      if p.events != [] {
        assert Get(st.log, n) != Some(d);
        assert EventNames(p.events) == {n} by {
          assert p.events[0].name == n;
        }
      }
  }

  lemma DistinctAppend(a: seq<Event>, b: seq<Event>)
    requires |a| <= 1 && DistinctNames(b)
    requires EventNames(a) !! EventNames(b)
    ensures DistinctNames(a + b)
  {
    forall i, j | 0 <= i < j < |a + b| ensures (a + b)[i].name != (a + b)[j].name {
      if i < |a| {
        assert (a + b)[i].name in EventNames(a);
        assert (a + b)[j] == b[j - |a|];
        assert (a + b)[j].name in EventNames(b);
      }
    }
  }

  /** Within one day, the faces of a frame log each name at most once: the
      names logged are exactly the identified names that were not already
      logged for that day, each one time, and afterwards every identified
      name is logged for that day. */
  lemma {:induction false} AtMostOncePerDay(names: seq<Name>, st: State, faces: seq<Face>, d: Date)
    requires FacesFit(names, faces)
    requires OnDay(faces, d)
    ensures var r := ProcessFaces(names, st, faces);
      && DistinctNames(r.events)
      && (forall i | 0 <= i < |r.events| :: r.events[i].date == d)
      && EventNames(r.events) == MatchedNames(names, faces) - LoggedOn(st.log, d)
      && LoggedOn(r.state.log, d) == LoggedOn(st.log, d) + MatchedNames(names, faces)
    decreases |faces|
  {
    if |faces| > 0 {
      var p := ProcessFace(names, st, faces[0]);
      var q := ProcessFaces(names, p.state, faces[1..]);
      FaceOnDay(names, st, faces[0], d);
      AtMostOncePerDay(names, p.state, faces[1..], d);
      EventNamesAppend(p.events, q.events);
      assert MatchedNames(names, faces) == FaceName(names, faces[0]) + MatchedNames(names, faces[1..]);
      DistinctAppend(p.events, q.events);
      var r := ProcessFaces(names, st, faces);
      assert r == Progress(q.state, p.events + q.events);
      forall i | 0 <= i < |r.events| ensures r.events[i].date == d {
        if i >= |p.events| { assert r.events[i] == q.events[i - |p.events|]; }
      }
    }
  }

  // ---------------------------------------------------------------------------
  // The frame loop
  // ---------------------------------------------------------------------------

  /** Why the loop ended. `OutOfFrames` means the given frames ran out before
      any exit condition held: the session is still running. */
  datatype Stop = ReadFailed | Recognized | QuitKey | OutOfFrames

  /** The state at exit, the detections logged on the way, why the loop
      stopped and how many frames it read. */
  datatype Outcome = Outcome(state: State, events: seq<Event>, stop: Stop, consumed: nat)

  predicate FramesFit(names: seq<Name>, frames: seq<Frame>) {
    forall k | 0 <= k < |frames| :: FacesFit(names, frames[k].faces)
  }

  /** The `while True` loop from state `st` over the frames still to come. */
  function RunFrom(names: seq<Name>, st: State, frames: seq<Frame>): (r: Outcome)
    requires FramesFit(names, frames)
    ensures r.consumed <= |frames|
    ensures r.consumed == 0 <==> |frames| == 0
    ensures r.events == [] ==> r.state == st
    ensures r.state.recognized == (st.recognized || r.events != [])
    ensures Extends(st.log, r.state.log)
    ensures ValidLog(st.log) ==> ValidLog(r.state.log)
    ensures r.state.log.dates.Keys == st.log.dates.Keys + EventNames(r.events)
    decreases |frames|
  {
    if |frames| == 0 then Outcome(st, [], OutOfFrames, 0)
    else
      var f := frames[0];
      if !f.readOk then Outcome(st, [], ReadFailed, 1)
      else
        var p := ProcessFaces(names, st, f.faces);
        if p.state.recognized then Outcome(p.state, p.events, Recognized, 1)
        else if f.quit then Outcome(p.state, p.events, QuitKey, 1)
        else
          var rest := RunFrom(names, p.state, frames[1..]);
          EventNamesAppend(p.events, rest.events);
          Outcome(rest.state, p.events + rest.events, rest.stop, rest.consumed + 1)
  }

  /** A whole session: fresh log, `recognized` false. */
  function Run(names: seq<Name>, frames: seq<Frame>): (r: Outcome)
    requires FramesFit(names, frames)
    ensures ValidLog(r.state.log)
    ensures r.state.recognized <==> r.events != []
    ensures r.state.log.dates.Keys == EventNames(r.events)
  {
    RunFrom(names, Fresh, frames)
  }

  /** Whether some face of the frame is identified as a gallery name. */
  predicate AnyMatch(names: seq<Name>, f: Frame)
    requires FacesFit(names, f.faces)
  {
    MatchedNames(names, f.faces) != {}
  }

  /** With nothing logged yet, a batch of faces logs something exactly when
      some face is identified. */
  lemma {:induction false} EmptyLogLogsAnyMatch(names: seq<Name>, st: State, faces: seq<Face>)
    requires FacesFit(names, faces)
    requires st.log.dates == map[]
    ensures ProcessFaces(names, st, faces).events != [] <==> MatchedNames(names, faces) != {}
    decreases |faces|
  {
    if |faces| > 0 {
      var p := ProcessFace(names, st, faces[0]);
      match Identify(names, faces[0].matches)
      case None =>
        EmptyLogLogsAnyMatch(names, st, faces[1..]);
      case Some(n) =>
        assert p.events != [];
    }
  }

  /** The loop ends at the first frame that fails to read, identifies some
      face, or carries the quit key; earlier frames read, identify nobody and
      do not quit. A failed read processes none of its faces; a recognition
      ends the loop only after all faces of its frame are processed, and the
      state is then the result of those faces alone; otherwise nothing is
      logged. */
  lemma {:induction false} StopsAtFirstDecisiveFrame(names: seq<Name>, frames: seq<Frame>)
    requires FramesFit(names, frames)
    ensures var r := Run(names, frames);
      && (forall k | 0 <= k < r.consumed - 1 ::
            frames[k].readOk && !AnyMatch(names, frames[k]) && !frames[k].quit)
      && (r.consumed > 0 ==>
            var f := frames[r.consumed - 1];
            && (r.stop == ReadFailed <==> !f.readOk)
            && (r.stop == Recognized <==> f.readOk && AnyMatch(names, f))
            && (r.stop == QuitKey <==> f.readOk && !AnyMatch(names, f) && f.quit))
      && (r.stop == OutOfFrames ==> r.consumed == |frames|)
      && (r.stop == Recognized <==> r.events != [])
      && (r.stop == Recognized ==>
            Progress(r.state, r.events) == ProcessFaces(names, Fresh, frames[r.consumed - 1].faces))
      && (r.stop != Recognized ==> r.state == Fresh)
    decreases |frames|
  {
    if |frames| > 0 {
      var f := frames[0];
      var r := Run(names, frames);
      if f.readOk {
        var p := ProcessFaces(names, Fresh, f.faces);
        EmptyLogLogsAnyMatch(names, Fresh, f.faces);
        if !p.state.recognized && !f.quit {
          assert p.state == Fresh;
          StopsAtFirstDecisiveFrame(names, frames[1..]);
          var rest := Run(names, frames[1..]);
          assert r == Outcome(rest.state, rest.events, rest.stop, rest.consumed + 1);
          forall k | 0 <= k < r.consumed - 1
            ensures frames[k].readOk && !AnyMatch(names, frames[k]) && !frames[k].quit
          {
            if k > 0 { assert frames[k] == frames[1..][k - 1]; }
          }
          if r.consumed > 1 {
            assert frames[r.consumed - 1] == frames[1..][rest.consumed - 1];
          }
        }
      }
    }
  }

  /** Every logged name is a gallery name. */
  lemma EventsAreEnrolled(names: seq<Name>, frames: seq<Frame>)
    requires FramesFit(names, frames)
    ensures forall i | 0 <= i < |Run(names, frames).events| :: Run(names, frames).events[i].name in names
  {
    var r := Run(names, frames);
    StopsAtFirstDecisiveFrame(names, frames);
    if r.stop == Recognized {
      MatchedNamesEnrolled(names, frames[r.consumed - 1].faces);
      forall i | 0 <= i < |r.events| ensures r.events[i].name in names {
        assert r.events[i].name in EventNames(r.events);
      }
    }
  }

  lemma {:induction false} MatchedNamesEnrolled(names: seq<Name>, faces: seq<Face>)
    requires FacesFit(names, faces)
    ensures forall n | n in MatchedNames(names, faces) :: n in names
    decreases |faces|
  {
    if |faces| > 0 {
      MatchedNamesEnrolled(names, faces[1..]);
    }
  }
  /** "Unknown" enters the log only if some enrolled identity is literally
      called "Unknown": the log test is whether any entry matched, not what
      the label says. */
  lemma UnknownNeverLogged(names: seq<Name>, frames: seq<Frame>)
    requires FramesFit(names, frames)
    requires UNKNOWN !in names
    ensures UNKNOWN !in Run(names, frames).state.log.dates
  {
    var r := Run(names, frames);
    EventsAreEnrolled(names, frames);
  }

  /** A session on a single day logs each name at most once, and what it
      logs is exactly the set of names identified in its last frame. */
  lemma SessionLogsEachNameOnce(names: seq<Name>, frames: seq<Frame>, d: Date)
    requires FramesFit(names, frames)
    requires forall k | 0 <= k < |frames| :: OnDay(frames[k].faces, d)
    ensures var r := Run(names, frames);
      && DistinctNames(r.events)
      && (forall i | 0 <= i < |r.events| :: r.events[i].date == d)
      && (r.stop == Recognized ==> r.state.log.dates.Keys == MatchedNames(names, frames[r.consumed - 1].faces))
  {
    var r := Run(names, frames);
    StopsAtFirstDecisiveFrame(names, frames);
    if r.stop == Recognized {
      var f := frames[r.consumed - 1];
      assert OnDay(f.faces, d);
      assert Progress(r.state, r.events) == ProcessFaces(names, Fresh, f.faces);
      AtMostOncePerDay(names, Fresh, f.faces, d);
      assert LoggedOn(EmptyLog, d) == {};
    } else {
      assert r.events == [];
    }
  }
}
