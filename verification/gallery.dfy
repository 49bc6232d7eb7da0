/** Gallery construction: the start-up walk over the enrollment directory
    that fills the two parallel lists `known_faces` and `known_names`.

    The vision library is not modelled: for every image file the model is
    told what loading it produced, either an exception or the list of face
    encodings found in it. Encodings are an opaque type parameter `E`. */
module GalleryLoader {

  /** What loading one image file and asking for its face encodings gave. */
  datatype Decode<E> = Raises | Encodings(found: seq<E>)

  /** One file inside a person's directory, in directory-listing order. */
  datatype ImageFile<E> = ImageFile(filename: string, decode: Decode<E>)

  /** One entry of the enrollment directory: a sub-directory named after the
      person it enrolls, or anything that is not a directory. */
  datatype Entry<E> =
    | PersonDir(name: string, files: seq<ImageFile<E>>)
    | NotADirectory(name: string)

  /** The two parallel lists: `faces[i]` is an encoding of `names[i]`. */
  datatype Gallery<E> = Gallery(faces: seq<E>, names: seq<string>)

  predicate Aligned<E>(g: Gallery<E>) {
    |g.faces| == |g.names|
  }

  function Empty<E>(): Gallery<E> {
    Gallery([], [])
  }

  /** Appending one gallery's lists after another's. */
  function Concat<E>(a: Gallery<E>, b: Gallery<E>): Gallery<E> {
    Gallery(a.faces + b.faces, a.names + b.names)
  }

  // ---------------------------------------------------------------------------
  // File-name filter
  // ---------------------------------------------------------------------------

  /** ASCII lower-casing of one character. */
  function LowerChar(c: char): (r: char)
    ensures 'A' <= c <= 'Z' ==> 'a' <= r <= 'z'
    ensures !('A' <= c <= 'Z') ==> r == c
  {
    if 'A' <= c <= 'Z' then (c as int - 'A' as int + 'a' as int) as char else c
  }

  function Lower(s: string): (r: string)
    ensures |r| == |s|
    ensures forall i | 0 <= i < |s| :: r[i] == LowerChar(s[i])
  {
    seq(|s|, i requires 0 <= i < |s| => LowerChar(s[i]))
  }

  predicate EndsWith(s: string, suffix: string) {
    |suffix| <= |s| && s[|s| - |suffix|..] == suffix
  }

  /** The extension test: the lower-cased name ends in one of the three
      image suffixes. */
  predicate HasImageExtension(filename: string) {
    var l := Lower(filename);
    EndsWith(l, ".png") || EndsWith(l, ".jpg") || EndsWith(l, ".jpeg")
  }

  /** A file contributes to the gallery exactly when it passes the extension
      test, loads without raising and holds at least one face. */
  predicate Usable<E>(f: ImageFile<E>) {
    HasImageExtension(f.filename) && f.decode.Encodings? && |f.decode.found| > 0
  }

  // ---------------------------------------------------------------------------
  // The two nested loops
  // ---------------------------------------------------------------------------

  /** What one file of `person`'s directory appends to the two lists. */
  function LoadImage<E>(person: string, f: ImageFile<E>): (g: Gallery<E>)
    ensures !HasImageExtension(f.filename) ==> g == Empty()
    ensures f.decode.Raises? ==> g == Empty()
    ensures f.decode == Encodings([]) ==> g == Empty()
    ensures Usable(f) ==> g == Gallery([f.decode.found[0]], [person])
  {
    if HasImageExtension(f.filename) then
      match f.decode
      case Raises => Empty()
      case Encodings(found) =>
        if |found| > 0 then Gallery([found[0]], [person]) else Empty()
    else
      Empty()
  }

  /** The inner loop over one person's files. */
  function LoadImages<E>(person: string, files: seq<ImageFile<E>>): (g: Gallery<E>)
    ensures Aligned(g)
    ensures forall i | 0 <= i < |g.names| :: g.names[i] == person
    ensures |g.names| <= |files|
    decreases |files|
  {
    if |files| == 0 then Empty()
    else Concat(LoadImage(person, files[0]), LoadImages(person, files[1..]))
  }

  /** What one entry of the enrollment directory appends. */
  function LoadEntry<E>(e: Entry<E>): (g: Gallery<E>)
    ensures Aligned(g)
    ensures e.NotADirectory? ==> g == Empty()
    ensures forall i | 0 <= i < |g.names| :: g.names[i] == e.name
  {
    match e
    case NotADirectory(_) => Empty()
    case PersonDir(name, files) => LoadImages(name, files)
  }

  /** The outer loop: the whole gallery, in listing order. */
  function LoadGallery<E>(entries: seq<Entry<E>>): (g: Gallery<E>)
    ensures Aligned(g)
    ensures forall i | 0 <= i < |g.names| :: g.names[i] in EntryNames(entries)
    decreases |entries|
  {
    if |entries| == 0 then Empty()
    else Concat(LoadEntry(entries[0]), LoadGallery(entries[1..]))
  }

  function EntryNames<E>(entries: seq<Entry<E>>): set<string> {
    set i | 0 <= i < |entries| && entries[i].PersonDir? :: entries[i].name
  }

  // ---------------------------------------------------------------------------
  // Counting usable images
  // ---------------------------------------------------------------------------

  /** Number of usable files in a list. */
  function UsableCount<E>(files: seq<ImageFile<E>>): nat
    decreases |files|
  {
    if |files| == 0 then 0
    else (if Usable(files[0]) then 1 else 0) + UsableCount(files[1..])
  }

  /** Number of usable files across all directories called `person`. */
  function UsableImagesOf<E>(entries: seq<Entry<E>>, person: string): nat
    decreases |entries|
  {
    if |entries| == 0 then 0
    else
      (match entries[0]
       case PersonDir(name, files) => if name == person then UsableCount(files) else 0
       case NotADirectory(_) => 0)
      + UsableImagesOf(entries[1..], person)
  }

  // ---------------------------------------------------------------------------
  // Properties
  // ---------------------------------------------------------------------------

  lemma ConcatAssoc<E>(a: Gallery<E>, b: Gallery<E>, c: Gallery<E>)
    ensures Concat(Concat(a, b), c) == Concat(a, Concat(b, c))
  {
  }

  /** The inner loop is a concatenation of per-file contributions: what one
      file appends does not depend on the files around it. */
  lemma {:induction false} LoadImagesAppend<E>(person: string, a: seq<ImageFile<E>>, b: seq<ImageFile<E>>)
    ensures LoadImages(person, a + b) == Concat(LoadImages(person, a), LoadImages(person, b))
    decreases |a|
  {
    if |a| == 0 {
      assert a + b == b;
      assert Concat(Empty(), LoadImages(person, b)) == LoadImages(person, b);
    } else {
      assert (a + b)[1..] == a[1..] + b;
      LoadImagesAppend(person, a[1..], b);
      ConcatAssoc(LoadImage(person, a[0]), LoadImages(person, a[1..]), LoadImages(person, b));
    }
  }

  /** The outer loop is a concatenation of per-entry contributions: what one
      entry appends does not depend on the entries around it. */
  lemma {:induction false} LoadGalleryAppend<E>(a: seq<Entry<E>>, b: seq<Entry<E>>)
    ensures LoadGallery(a + b) == Concat(LoadGallery(a), LoadGallery(b))
    decreases |a|
  {
    if |a| == 0 {
      assert a + b == b;
      assert Concat(Empty(), LoadGallery(b)) == LoadGallery(b);
    } else {
      assert (a + b)[1..] == a[1..] + b;
      LoadGalleryAppend(a[1..], b);
      ConcatAssoc(LoadEntry(a[0]), LoadGallery(a[1..]), LoadGallery(b));
    }
  }

  lemma ConcatEmpty<E>(g: Gallery<E>)
    ensures Concat(g, Empty()) == g
  {
  }

  /** A file that fails the extension test, raises, or holds no face is
      skipped, and the rest of the person's load is what it would have been
      without that file. */
  lemma SkipUnusableImage<E>(person: string, a: seq<ImageFile<E>>, f: ImageFile<E>, b: seq<ImageFile<E>>)
    requires !Usable(f)
    ensures LoadImages(person, a + [f] + b) == LoadImages(person, a + b)
  {
    LoadImagesAppend(person, a + [f], b);
    LoadImagesAppend(person, a, [f]);
    LoadImagesAppend(person, a, b);
    assert [f][1..] == [];
    assert LoadImages(person, [f]) == Concat(LoadImage(person, f), Empty());
    ConcatEmpty(LoadImage(person, f));
    ConcatEmpty(LoadImages(person, a));
  }

  /** An entry that is not a directory is skipped, and the rest of the load is
      what it would have been without it. */
  lemma SkipNonDirectory<E>(a: seq<Entry<E>>, name: string, b: seq<Entry<E>>)
    ensures LoadGallery(a + [NotADirectory(name)] + b) == LoadGallery(a + b)
  {
    var skipped: seq<Entry<E>> := [NotADirectory(name)];
    LoadGalleryAppend(a + skipped, b);
    LoadGalleryAppend(a, skipped);
    LoadGalleryAppend(a, b);
    assert skipped[1..] == [];
    assert LoadGallery(skipped) == Concat(Empty(), Empty());
    ConcatEmpty(LoadGallery(a));
  }

  /** Every usable file of a person's directory adds exactly one entry. */
  lemma {:induction false} LoadImagesCount<E>(person: string, files: seq<ImageFile<E>>)
    ensures |LoadImages(person, files).names| == UsableCount(files)
    decreases |files|
  {
    if |files| > 0 {
      LoadImagesCount(person, files[1..]);
    }
  }

  /** A name occurs in `known_names` once per usable image across the
      directories of that name: an identity with several usable images is
      enrolled several times. */
  lemma {:induction false} OccurrencesOfName<E>(entries: seq<Entry<E>>, person: string)
    ensures multiset(LoadGallery(entries).names)[person] == UsableImagesOf(entries, person)
    decreases |entries|
  {
    if |entries| > 0 {
      OccurrencesOfName(entries[1..], person);
      var head := LoadEntry(entries[0]);
      var rest := LoadGallery(entries[1..]);
      assert multiset(head.names + rest.names) == multiset(head.names) + multiset(rest.names);
      match entries[0]
      case NotADirectory(_) =>
      case PersonDir(name, files) =>
        LoadImagesCount(name, files);
        SameNameMultiset(head.names, name);
    }
  }

  lemma {:induction false} SameNameMultiset(names: seq<string>, name: string)
    requires forall i | 0 <= i < |names| :: names[i] == name
    ensures multiset(names) == multiset{} [name := |names|]
    decreases |names|
  {
    if |names| > 0 {
      SameNameMultiset(names[1..], name);
      assert names == [names[0]] + names[1..];
      assert multiset(names) == multiset{names[0]} + multiset(names[1..]);
    }
  }

  lemma LowerAppend(a: string, b: string)
    ensures Lower(a + b) == Lower(a) + Lower(b)
  {
    assert forall i | 0 <= i < |a + b| :: Lower(a + b)[i] == (Lower(a) + Lower(b))[i];
  }

  /** The extension test ignores case: any file name whose extension
      lower-cases to one of the three image suffixes passes it. */
  lemma ImageSuffixAnyCase(base: string, ext: string)
    requires Lower(ext) == ".png" || Lower(ext) == ".jpg" || Lower(ext) == ".jpeg"
    ensures HasImageExtension(base + ext)
  {
    LowerAppend(base, ext);
    var l := Lower(base + ext);
    assert l[|l| - |ext|..] == Lower(ext);
  }

  /** Lower-casing leaves a string without upper-case ASCII letters alone. */
  lemma LowerKeepsLowercase(s: string)
    requires forall i | 0 <= i < |s| :: !('A' <= s[i] <= 'Z')
    ensures Lower(s) == s
  {
  }

  lemma TextFileIsNotImage()
    ensures !HasImageExtension("notes.txt")
  {
    LowerKeepsLowercase("notes.txt");
  }

  lemma JpgIsImage()
    ensures HasImageExtension("a.jpg")
  {
    LowerKeepsLowercase(".jpg");
    ImageSuffixAnyCase("a", ".jpg");
    assert "a" + ".jpg" == "a.jpg";
  }

  lemma LowerUpperPng()
    ensures Lower(".PNG") == ".png"
  {
    var l := Lower(".PNG");
    assert l[0] == '.' && l[1] == 'p' && l[2] == 'n' && l[3] == 'g';
  }

  lemma UpperPngIsImage()
    ensures HasImageExtension("b.PNG")
  {
    LowerUpperPng();
    ImageSuffixAnyCase("b", ".PNG");
    assert "b" + ".PNG" == "b.PNG";
  }

  /** A directory with two usable images yields two gallery entries for the
      same person, one encoding from each image. */
  lemma TwoImagesTwoEntries<E>(e1: E, e2: E, e3: E)
    ensures LoadGallery([PersonDir("alice", [ImageFile("a.jpg", Encodings([e1])),
                                             ImageFile("notes.txt", Encodings([e3])),
                                             ImageFile("b.PNG", Encodings([e2, e3]))])])
            == Gallery([e1, e2], ["alice", "alice"])
  {
    var f1, f2, f3 := ImageFile("a.jpg", Encodings([e1])), ImageFile("notes.txt", Encodings([e3])),
                      ImageFile("b.PNG", Encodings([e2, e3]));
    var one := LoadImage("alice", f1);
    var three := LoadImage("alice", f3);
    assert one == Gallery([e1], ["alice"]) by { JpgIsImage(); }
    assert LoadImage("alice", f2) == Empty() by { TextFileIsNotImage(); }
    assert three == Gallery([e2], ["alice"]) by { UpperPngIsImage(); }
    var files := [f1, f2, f3];
    assert LoadImages("alice", [f3]) == three by {
      assert [f3][1..] == [];
    }
    assert LoadImages("alice", [f2, f3]) == three by {
      assert [f2, f3][1..] == [f3];
    }
    assert LoadImages("alice", files) == Gallery([e1, e2], ["alice", "alice"]) by {
      assert files[1..] == [f2, f3];
    }
    var entries := [PersonDir("alice", files)];
    assert entries[1..] == [];
  }
}
