/** The whole script: load the gallery, run the session over the camera
    frames, then write the day's report.

    Here a detected face is its encoding, and `within` stands for the
    library's distance test at the configured tolerance, so the match
    vectors the session sees are computed from the loaded gallery exactly as
    `compare_faces` would compute them. */
module Agent {
  import opened Wrappers
  import opened GalleryLoader
  import opened Session
  import opened Report

  /** One detected face: its encoding, and the date read when it is handled. */
  datatype Detection<E> = Detection(encoding: E, today: Date)

  /** One camera read: whether it succeeded, the faces found in it, and
      whether the quit key was pressed after it was shown. */
  datatype Capture<E> = Capture(readOk: bool, detections: seq<Detection<E>>, quit: bool)

  /** `compare_faces(known_faces, encoding, TOLERANCE)`. */
  function CompareFaces<E>(known: seq<E>, encoding: E, within: (E, E) -> bool): (matches: seq<bool>)
    ensures |matches| == |known|
    ensures forall i | 0 <= i < |known| :: matches[i] == within(known[i], encoding)
  {
    seq(|known|, i requires 0 <= i < |known| => within(known[i], encoding))
  }

  function ToFace<E>(known: seq<E>, d: Detection<E>, within: (E, E) -> bool): (face: Face)
    ensures |face.matches| == |known|
    ensures face.today == d.today
  {
    Face(CompareFaces(known, d.encoding, within), d.today)
  }

  /** The frames the session sees, with every detection compared against
      the gallery. */
  function ToFrames<E>(known: seq<E>, captures: seq<Capture<E>>, within: (E, E) -> bool): (frames: seq<Frame>)
    ensures |frames| == |captures|
    ensures forall k | 0 <= k < |frames| ::
              && frames[k].readOk == captures[k].readOk
              && frames[k].quit == captures[k].quit
              && |frames[k].faces| == |captures[k].detections|
              && forall j | 0 <= j < |frames[k].faces| :: |frames[k].faces[j].matches| == |known|
    ensures forall k, j | 0 <= k < |frames| && 0 <= j < |frames[k].faces| ::
              frames[k].faces[j] == ToFace(known, captures[k].detections[j], within)
  {
    seq(|captures|, k requires 0 <= k < |captures| =>
      Frame(captures[k].readOk,
            seq(|captures[k].detections|, j requires 0 <= j < |captures[k].detections| =>
              ToFace(known, captures[k].detections[j], within)),
            captures[k].quit))
  }

  /** A detection is identified as the owner of the first gallery entry the
      tolerance test accepts, and as nobody when the test accepts none. */
  lemma IdentifiedAsFirstWithin<E>(g: Gallery<E>, d: Detection<E>, within: (E, E) -> bool)
    requires Aligned(g)
    ensures var r := Identify(g.names, ToFace(g.faces, d, within).matches);
      && (r.None? <==> forall i | 0 <= i < |g.faces| :: !within(g.faces[i], d.encoding))
      && (forall i | 0 <= i < |g.faces| && within(g.faces[i], d.encoding)
                     && (forall j | 0 <= j < i :: !within(g.faces[j], d.encoding))
            :: r == Some(g.names[i]))
  {
    var m := ToFace(g.faces, d, within).matches;
    assert forall i | 0 <= i < |g.faces| :: m[i] == within(g.faces[i], d.encoding);
  }

  datatype AgentRun<E> = AgentRun(gallery: Gallery<E>, session: Outcome, report: Option<seq<Row>>)

  /** One run of the script. A report is written exactly when the session
      ended on a recognition; it then holds one row per name, covering every
      name the report held before and every name logged in this session, and
      every logged name is an enrolled directory name. */
  function RunAgent<E>(entries: seq<Entry<E>>, captures: seq<Capture<E>>, within: (E, E) -> bool,
                       clock: nat -> Timestamp, existing: Option<seq<Row>>): (r: AgentRun<E>)
    ensures r.report.Some? <==> r.session.stop == Recognized
    ensures r.report.Some? ==> UniqueNames(r.report.value)
    ensures r.report.Some? ==>
              NameSet(r.report.value)
              == (if existing.Some? then NameSet(existing.value) else {}) + EventNames(r.session.events)
    ensures forall i | 0 <= i < |r.session.events| :: r.session.events[i].name in EntryNames(entries)
  {
    var g := LoadGallery(entries);
    var frames := ToFrames(g.faces, captures, within);
    var outcome := Run(g.names, frames);
    var written := SaveReport(outcome.state.log, clock, existing);
    ReportIffRecognized(g.names, frames);
    EventsAreEnrolled(g.names, frames);
    GalleryNamesEnrolled(entries);
    AgentRun(g, outcome, written)
  }

  /** The session log is empty exactly when the session did not end on a
      recognition. */
  lemma ReportIffRecognized(names: seq<Name>, frames: seq<Frame>)
    requires FramesFit(names, frames)
    ensures Run(names, frames).state.log.dates == map[] <==> Run(names, frames).stop != Recognized
  {
    var r := Run(names, frames);
    StopsAtFirstDecisiveFrame(names, frames);
    if r.events != [] {
      assert r.events[0].name in EventNames(r.events);
    }
  }

  lemma GalleryNamesEnrolled<E>(entries: seq<Entry<E>>)
    ensures forall n | n in LoadGallery(entries).names :: n in EntryNames(entries)
  {
  }

}
