# Face-recognition access agent: a Dafny model of its session logic

This project models the recognition agent `local_face_Agent.py`, a
top-level script that

1. loads a gallery of enrolled faces from one sub-directory per person
   (two parallel lists, `known_faces` and `known_names`);
2. reads camera frames, identifies each detected face as the first gallery
   entry within tolerance (or "Unknown"), logs a known name into
   `logged_today` the first time it is seen on a given date, and stops at
   the end of the first frame in which something new was logged, on the
   quit key, or when a frame cannot be read;
3. writes the day's report with one row per logged name, merging it into
   an existing report by concatenating old and new rows and keeping the
   last row of each name.

The vision library, camera, clock, spreadsheet files and network are not
modelled. They become inputs:

- For each image file, the model is given what loading it produced: an
  exception, or the list of encodings found in it.
- Each detected face arrives as its match vector, one boolean per gallery
  entry. The `Agent` module computes these vectors from an abstract
  `within` test, the way `compare_faces` does.
- Each face also carries the date read when it is handled.
- Each frame carries a read-success flag and a quit flag.
- Report rows get their times from a `clock` function, one reading per row.
- An existing report file is `Some(rows)`; a missing one is `None`.

Modules:

- `Wrappers`: `Option`.
- `GalleryLoader`: the enrollment walk (`gallery.dfy`).
- `Session`: matching, the log step and the frame loop (`session.dfy`).
- `Report`: new rows and the keep-last merge (`report.dfy`).
- `Agent`: the three stages chained together (`agent.dfy`).

Behaviour of the script worth knowing, all reflected in the model:

- The gallery gets one entry for every usable image, not one per person.
  A person with several usable images therefore appears several times
  (`TwoImagesTwoEntries`, `OccurrencesOfName`).
- A face is identified as the owner of the FIRST gallery entry whose
  tolerance test is true, not the nearest entry (`Identify`,
  `IdentifiedAsFirstWithin`).
- There is no frame budget and no retry. The loop ends on a recognition, on
  the quit key or on a failed read. A name is logged whether or not the
  notification succeeds.
- The log test is whether any gallery entry matched, not whether the label
  is "Unknown". An enrolled directory literally named "Unknown" would
  therefore be logged. `Session.UnknownNeverLogged` assumes no identity
  has that name.

## Model

| member | source | states |
|---|---|---|
| GalleryLoader.ImageSuffixAnyCase | local_face_Agent.py:28 | the extension test ignores case: every file name whose extension lower-cases to `.png`, `.jpg` or `.jpeg` passes it |
| GalleryLoader.LoadImage | local_face_Agent.py:28-37 | a file with a non-image extension, a file that raises, or an image with no face adds nothing; an image with at least one face adds its first encoding under the person's name |
| GalleryLoader.LoadImages | local_face_Agent.py:27-37 | the per-person lists stay the same length, every added name is the person's, and no more entries than files are added |
| GalleryLoader.LoadEntry | local_face_Agent.py:22-27 | an entry that is not a directory adds nothing; a directory adds entries named after it, with aligned lists |
| GalleryLoader.LoadGallery | local_face_Agent.py:19-37 | `known_faces` and `known_names` always have equal length, and every name is the name of a person directory |
| GalleryLoader.LoadImagesAppend | local_face_Agent.py:27-37 | loading files `a + b` is loading `a`, then appending what `b` loads: one file's contribution does not depend on the other files |
| GalleryLoader.LoadGalleryAppend | local_face_Agent.py:22-37 | loading entries `a + b` is loading `a`, then appending what `b` loads |
| GalleryLoader.SkipUnusableImage | local_face_Agent.py:28-37 | removing an unusable file (wrong extension, raises, or no face) leaves the rest of the person's load unchanged |
| GalleryLoader.SkipNonDirectory | local_face_Agent.py:22-25 | removing a non-directory entry leaves the rest of the load unchanged |
| GalleryLoader.LoadImagesCount | local_face_Agent.py:27-35 | a person's directory adds exactly one entry per usable image |
| GalleryLoader.OccurrencesOfName | local_face_Agent.py:22-35 | a name occurs in `known_names` exactly as many times as there are usable images across directories of that name |
| GalleryLoader.TwoImagesTwoEntries | local_face_Agent.py:27-35 | a directory with two usable images (one upper-case `.PNG`) and one text file yields two entries for the same person, each with its image's first encoding |
| Session.Put | local_face_Agent.py:84 | assigning a date sets that key, leaves every other key's value alone, never drops a key, keeps the existing key order, and keeps the dictionary well formed |
| Session.FirstMatch | local_face_Agent.py:67-68 | None exactly when no entry is true; otherwise the smallest index whose entry is true |
| Session.Identify | local_face_Agent.py:64-69 | no name exactly when no gallery entry matches; otherwise `known_names[i]` for the smallest matching `i` |
| Session.Label | local_face_Agent.py:64-69 | the label is "Unknown" when nothing matches and `known_names[i]` for the smallest matching `i` otherwise |
| Session.ProcessFace | local_face_Agent.py:63-86 | an unmatched face changes nothing. A matched name ends with today's date. It is newly logged exactly when its entry was not already today's date. Other names are untouched, keys only grow, and `recognized` becomes true exactly on a new log |
| Session.ProcessFaces | local_face_Agent.py:63-86 | over a frame's faces: no new log means no change, `recognized` is sticky and set exactly by a new log, the key set grows by exactly the newly logged names, and only identified names are logged |
| Session.FaceOnDay | local_face_Agent.py:71-84 | one face on day `d` logs its name exactly when the name is not already logged for `d`; afterwards the name is logged for `d` |
| Session.AtMostOncePerDay | local_face_Agent.py:63-86 | within one day, a frame logs each name at most once. It logs exactly the identified names not already logged that day, and afterwards every identified name is logged for that day |
| Session.RunFrom | local_face_Agent.py:53-95 | the loop reads at least one frame when there is one and never more than it is given, keys only grow, `recognized` is set exactly by a new log, and no new log means no change |
| Session.Run | local_face_Agent.py:50-95 | from an empty log, the final log is well formed, its keys are exactly the names logged, and `recognized` holds exactly when something was logged |
| Session.EmptyLogLogsAnyMatch | local_face_Agent.py:67-86 | with nothing logged yet, a frame logs something exactly when one of its faces is identified |
| Session.StopsAtFirstDecisiveFrame | local_face_Agent.py:53-95 | the loop stops at the first frame that fails to read (none of its faces handled), identifies a face (all its faces handled, the state comes from that frame alone), or carries the quit key; every earlier frame read, identified nobody and did not quit; nothing is logged unless it stopped on a recognition |
| Session.EventsAreEnrolled | local_face_Agent.py:67-69 | every logged name is a gallery name |
| Session.MatchedNamesEnrolled | local_face_Agent.py:67-69 | every identified name is a gallery name |
| Session.UnknownNeverLogged | local_face_Agent.py:64-84 | when no enrolled identity is called "Unknown", "Unknown" is never a key of the log |
| Session.SessionLogsEachNameOnce | local_face_Agent.py:71-95 | a session on one day logs each name at most once. When it ends on a recognition, the logged names are exactly those identified in its last frame |
| Report.NewRows | local_face_Agent.py:102-109 | row `i` carries the `i`-th key of the log in insertion order and the `i`-th clock reading; there is exactly one row per key, and the names are pairwise distinct |
| Report.KeepLast | local_face_Agent.py:114 | the de-duplicated rows have distinct names, keep every name, and contain only input rows |
| Report.LastRowOf | local_face_Agent.py:114 | reference lookup: a name maps to no row exactly when no row carries it, otherwise to a row of the report that carries it (the last one) |
| Report.LastOccurrenceSurvives | local_face_Agent.py:114 | a row with no later row of the same name survives de-duplication |
| Report.KeepLastPreservesLookup | local_face_Agent.py:114 | de-duplicating keeps the row every name maps to: it drops only rows that a later row of the same name overrides |
| Report.KeepLastUnique | local_face_Agent.py:114 | rows with distinct names pass through unchanged |
| Report.KeepLastAppend | local_face_Agent.py:114 | de-duplicating `a + b` keeps `a`'s survivors except names in `b`, then `b`'s survivors, in order |
| Report.SaveReport | local_face_Agent.py:102-121 | nothing is written exactly when the log is empty. What is written has one row per name. Its names are the log's keys plus, when a report existed, that report's names. With an existing report, the result is the existing rows de-duplicated, minus every name logged now, followed by all new rows |
| Report.MergeShape | local_face_Agent.py:114 | de-duplicating existing rows followed by new rows with distinct names gives the existing rows de-duplicated, minus every new name, followed by the new rows unchanged |
| Report.LastRowOfAppend | local_face_Agent.py:114 | in a concatenation, a name maps to its row in the second part when it has one there, otherwise to its row in the first part |
| Report.MergeLookup | local_face_Agent.py:112-115 | after the merge, each name maps to its new row when it was logged now, and to its last existing row otherwise, so names present only in the existing report keep their row |
| Report.NewRowsSurvive | local_face_Agent.py:112-115 | every new row survives the merge and is the only row of its name |
| Report.FirstReportOfDay | local_face_Agent.py:116-117 | with no report on disk, the new rows are written unchanged |
| Report.RerunAddsNoRows | local_face_Agent.py:112-115 | merging rows for names that a one-row-per-name report already holds leaves its row count unchanged, so a second session on the same day adds no row for the same person |
| Agent.ToFrames | local_face_Agent.py:54-65 | one frame per camera read, with its read and quit flags; face `j` of frame `k` is detection `j` of read `k`, its match vector is `compare_faces` of the gallery against its encoding, and it keeps the detection's date |
| Agent.IdentifiedAsFirstWithin | local_face_Agent.py:63-69 | a detection is identified as nobody exactly when the tolerance test accepts no gallery entry, and otherwise as the owner of the first entry it accepts |
| Agent.RunAgent | local_face_Agent.py:17-121 | a report is written exactly when the session ended on a recognition; it then has one row per name and holds the earlier report's names plus the names logged; every logged name is an enrolled directory name |
| Agent.ReportIffRecognized | local_face_Agent.py:94-102 | the log is empty exactly when the session did not end on a recognition |

## Left out

- Camera capture, window display, rectangle and text drawing (`local_face_Agent.py:42-45, 54, 88-98`) are device I/O. Read success and the quit key are per-frame inputs. Failing to open the camera at start (lines 43-45) is not modelled.
- Face detection, encoding and the tolerance comparison (`TOLERANCE = 0.45`) belong to the vision library and use floating point. They become given encodings per image and an abstract `within` test, or given match vectors.
- The HTTP notification (lines 77-82) is a network call whose failures are swallowed. It has no effect on the log when the call returns or raises; a call that never returns (there is no timeout) would hang the loop before line 84, which the model does not represent. A logged detection is recorded as an `Event`, which stands for the notification and the "Access Granted" line.
- The timestamp printed at recognition (line 74) is never stored, so it is not modelled. Report times come from the `clock` parameter, read when the rows are built (line 105).
- Spreadsheet reading and writing and the report file name (lines 103, 110-117) are file I/O. pandas' type coercion of the name column on read (a name like `"007"` read back as a number) is not modelled. Rows are `(name, time)` pairs.
- The directory listing order is whatever the file system returns. The model takes the given order.
- GalleryLoader.Lower: folds only ASCII `A`-`Z`, while Python's `str.lower` also folds other Unicode letters. The three suffixes are ASCII, but in Python a non-ASCII name can lower-case to a string of a different length.
- Session.RunFrom: the camera gives an endless stream, but the model takes a finite list of frames. The `OutOfFrames` stop means the session was still running when the given frames ran out.
- Session.SessionLogsEachNameOnce: the source reads the date per face, so a session spanning midnight can log a name again under the new date. At-most-once is proved for a single day. For any dates, `Session.ProcessFace` states the per-face rule.
- Session.Identify: compare_faces always returns one boolean per gallery entry. The model requires match vectors of gallery length (`FacesFit`, `FramesFit`). `Agent.ToFrames` establishes this.
- Report.SaveReport: requires the session log to be well formed (`ValidLog`: keys listed once, in insertion order). This holds for any Python dict, and `Session.Run` ensures it.
- `app.py` (Streamlit dashboard and registration forms) and `api_server.py` (HTTP endpoints and webcam registration) are not part of this model.
