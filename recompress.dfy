/**
 * The body of `main()` after validation (CompressCBZ.py:29-51): every entry of
 * the input archive is appended to two parallel lists (its name, and a buffer
 * that the image library fills for a JPEG or PNG entry and leaves empty
 * otherwise); any failure aborts the run before the output archive exists;
 * then entry i of the output archive is written from name i and buffer i.
 *
 * The zip container is a sequence of entries; the image library
 * (`Image.open`, `convert('RGB')`, `save`) and the name test are functions
 * passed in.
 */
module Recompress {
  import opened Wrappers
  import opened Classification
  import opened Arguments
  import opened PySlice

  newtype byte = x: int | 0 <= x < 256

  type Bytes = seq<byte>

  /** An archive member: its name inside the zip and its stored bytes. */
  datatype Entry = Entry(name: string, data: Bytes)

  /** The arguments the image library's `save` is called with. */
  datatype SaveOptions =
    | JpegRgb(quality: int, optimize: bool)   // convert('RGB'), then save as JPEG
    | PngDefault                             // save as PNG with default settings

  /**
   * Decode the stored bytes and re-encode them with the given options;
   * None when the library raises (bytes that do not decode as an image).
   */
  type Codec = (Bytes, SaveOptions) -> Option<Bytes>

  /**
   * The name test of CompressCBZ.py:38-43. The program as written is the
   * instance `ClassifyAsWritten`; the corrected program is `Classify`.
   */
  type Classifier = string -> ImageKind

  /** The `compressed` dictionary: its two parallel lists. */
  datatype Collection = Collection(filenames: seq<string>, data: seq<Bytes>)

  /** How a run ends. */
  datatype Outcome =
    | Rejected(error: ArgumentError)     // TypeError before any I/O
    | Aborted(skipped: seq<string>)      // exception in the read pass
    | Written(path: string, archive: seq<Entry>, skipped: seq<string>)

  /** The buffer one entry leaves in the data list, or None if its recoding raises. */
  function Recompressed(e: Entry, quality: int, codec: Codec, classify: Classifier): Option<Bytes>
  {
    match classify(e.name)
    case Jpeg => codec(e.data, JpegRgb(quality, true))
    case Png => codec(e.data, PngDefault)
    case Unsupported => Some([])
  }

  /** The entry names of an archive, in archive order. */
  function Names(entries: seq<Entry>): (r: seq<string>)
    ensures |r| == |entries|
    ensures forall i | 0 <= i < |entries| :: r[i] == entries[i].name
  {
    seq(|entries|, i requires 0 <= i < |entries| => entries[i].name)
  }

  /**
   * The names reported as unsupported ("File extension unsupported.
   * Skipping") while reading the first `n` entries, one per such entry, in order.
   */
  function Skipped(entries: seq<Entry>, n: nat, classify: Classifier): seq<string>
    requires n <= |entries|
  {
    if n == 0 then []
    else
      var e := entries[n - 1];
      Skipped(entries, n - 1, classify) + (if classify(e.name) == Unsupported then [e.name] else [])
  }

  /** The positions among the first `n` entries whose names are unsupported. */
  ghost function UnsupportedAmong(entries: seq<Entry>, n: nat, classify: Classifier): set<nat>
    requires n <= |entries|
  {
    set j: nat | j < n && classify(entries[j].name) == Unsupported
  }

  /** Every entry of `entries` can be read and recoded. */
  ghost predicate AllRecodable(entries: seq<Entry>, quality: int, codec: Codec, classify: Classifier)
  {
    forall i | 0 <= i < |entries| :: Recompressed(entries[i], quality, codec, classify).Some?
  }

  /**
   * The two lists after the first `n` entries have been read, or None when
   * the recoding of one of them raises.
   */
  function Collected(entries: seq<Entry>, n: nat, quality: int, codec: Codec, classify: Classifier)
    : Option<Collection>
    requires n <= |entries|
  {
    if n == 0 then Some(Collection([], []))
    else
      match Collected(entries, n - 1, quality, codec, classify)
      case None => None
      case Some(c) =>
        match Recompressed(entries[n - 1], quality, codec, classify)
        case None => None
        case Some(buffer) => Some(Collection(c.filenames + [entries[n - 1].name], c.data + [buffer]))
  }

  /**
   * The read pass succeeds exactly when every entry can be recoded, and then
   * the two lists stay index-aligned: the name list is the entry names in
   * archive order, unsupported entries included, and buffer i is what entry i
   * was recoded to.
   */
  lemma {:induction false} CollectedSpec(entries: seq<Entry>, n: nat, quality: int, codec: Codec,
                                         classify: Classifier)
    requires n <= |entries|
    ensures Collected(entries, n, quality, codec, classify).Some? <==>
              AllRecodable(entries[..n], quality, codec, classify)
    ensures Collected(entries, n, quality, codec, classify).Some? ==>
              var c := Collected(entries, n, quality, codec, classify).value;
              && |c.filenames| == |c.data| == n
              && c.filenames == Names(entries[..n])
              && forall j | 0 <= j < n :: Recompressed(entries[j], quality, codec, classify) == Some(c.data[j])
  {
    if n > 0 {
      CollectedSpec(entries, n - 1, quality, codec, classify);
      assert forall j | 0 <= j < n - 1 :: entries[..n][j] == entries[..n - 1][j];
    }
  }

  /**
   * JPEG entries go to the codec with exactly the configured quality and
   * marker optimisation on; PNG entries go with options that carry no quality
   * at all; unsupported entries never reach the codec and leave an empty buffer.
   */
  lemma RecompressedByKind(e: Entry, quality: int, codec: Codec, classify: Classifier)
    ensures classify(e.name) == Jpeg ==>
              Recompressed(e, quality, codec, classify) == codec(e.data, JpegRgb(quality, true))
    ensures classify(e.name) == Png ==> Recompressed(e, quality, codec, classify) == codec(e.data, PngDefault)
    ensures classify(e.name) == Unsupported ==> Recompressed(e, quality, codec, classify) == Some([])
    ensures classify(e.name) != Jpeg ==>
              forall q :: Recompressed(e, q, codec, classify) == Recompressed(e, quality, codec, classify)
  {
  }

  /**
   * Reading the first `n` entries reports one name per unsupported entry
   * among them and nothing else: the report is as long as the set of
   * unsupported positions, each reported name is the name of an unsupported
   * entry, and the report is empty exactly when every entry is a JPEG or PNG.
   */
  lemma {:induction false} SkippedSpec(entries: seq<Entry>, n: nat, classify: Classifier)
    requires n <= |entries|
    ensures |Skipped(entries, n, classify)| == |UnsupportedAmong(entries, n, classify)|
    ensures forall k | 0 <= k < |Skipped(entries, n, classify)| ::
              exists j | 0 <= j < n :: entries[j].name == Skipped(entries, n, classify)[k]
                                       && classify(entries[j].name) == Unsupported
    ensures Skipped(entries, n, classify) == [] <==>
              forall j | 0 <= j < n :: classify(entries[j].name) != Unsupported
  {
    if n > 0 {
      SkippedSpec(entries, n - 1, classify);
      var before := UnsupportedAmong(entries, n - 1, classify);
      var m: nat := n - 1;
      assert m !in before;
      if classify(entries[m].name) == Unsupported {
        assert UnsupportedAmong(entries, n, classify) == before + {m};
      } else {
        assert UnsupportedAmong(entries, n, classify) == before;
      }
      var s := Skipped(entries, n, classify);
      forall k | 0 <= k < |s|
        ensures exists j | 0 <= j < n :: entries[j].name == s[k] && classify(entries[j].name) == Unsupported
      {
        if k == |s| - 1 && classify(entries[m].name) == Unsupported {
          assert entries[m].name == s[k];
        } else {
          assert s[k] == Skipped(entries, n - 1, classify)[k];
        }
      }
      if s == [] {
        assert classify(entries[m].name) != Unsupported;
      }
    }
  }

  /**
   * An archive holding `page1.jpg`, `page2.png` and `notes.txt`, under any
   * name test that classifies them as the program does: both images are
   * recoded, and `notes.txt` is reported as skipped yet keeps its place in the
   * name list, with an empty buffer.
   */
  lemma MixedArchiveExample(jpg: Bytes, png: Bytes, txt: Bytes, quality: int, codec: Codec,
                            classify: Classifier)
    requires classify("page1.jpg") == Jpeg && classify("page2.png") == Png
    requires classify("notes.txt") == Unsupported
    requires codec(jpg, JpegRgb(quality, true)).Some? && codec(png, PngDefault).Some?
    ensures var entries := [Entry("page1.jpg", jpg), Entry("page2.png", png), Entry("notes.txt", txt)];
            && Collected(entries, 3, quality, codec, classify)
                 == Some(Collection(["page1.jpg", "page2.png", "notes.txt"],
                                    [codec(jpg, JpegRgb(quality, true)).value, codec(png, PngDefault).value, []]))
            && Skipped(entries, 3, classify) == ["notes.txt"]
  {
    var entries := [Entry("page1.jpg", jpg), Entry("page2.png", png), Entry("notes.txt", txt)];
    var a := codec(jpg, JpegRgb(quality, true)).value;
    var b := codec(png, PngDefault).value;
    assert Recompressed(entries[0], quality, codec, classify) == Some(a);
    assert Recompressed(entries[1], quality, codec, classify) == Some(b);
    assert Recompressed(entries[2], quality, codec, classify) == Some([]);
    var names: seq<string> := [];
    var data: seq<Bytes> := [];
    assert Collected(entries, 0, quality, codec, classify) == Some(Collection(names, data));
    assert Collected(entries, 1, quality, codec, classify) == Some(Collection(names + ["page1.jpg"], data + [a]));
    names, data := names + ["page1.jpg"], data + [a];
    assert Collected(entries, 2, quality, codec, classify) == Some(Collection(names + ["page2.png"], data + [b]));
    names, data := names + ["page2.png"], data + [b];
    assert Collected(entries, 3, quality, codec, classify) == Some(Collection(names + ["notes.txt"], data + [[]]));
    assert names + ["notes.txt"] == ["page1.jpg", "page2.png", "notes.txt"];
    assert data + [[]] == [a, b, []];
    assert Skipped(entries, 0, classify) == [];
    assert Skipped(entries, 1, classify) == [];
    assert Skipped(entries, 2, classify) == [];
    assert Skipped(entries, 3, classify) == [] + ["notes.txt"];
  }

  /**
   * The read pass (CompressCBZ.py:30-46). For every entry, in order, the name
   * and an empty buffer are appended first; the buffer is then filled for a
   * JPEG or PNG entry, or the name is reported as skipped. The first entry
   * whose recoding raises ends the pass with None.
   */
  method CollectImages(entries: seq<Entry>, quality: int, codec: Codec, classify: Classifier)
    returns (r: Option<Collection>, skipped: seq<string>)
    ensures r.Some? ==> r == Collected(entries, |entries|, quality, codec, classify)
    ensures r.Some? ==> skipped == Skipped(entries, |entries|, classify)
    ensures r.None? ==> exists k | 0 <= k < |entries| ::
              && Collected(entries, k, quality, codec, classify).Some?
              && Recompressed(entries[k], quality, codec, classify).None?
              && skipped == Skipped(entries, k, classify)
  {
    var filenames: seq<string> := [];
    var data: seq<Bytes> := [];
    skipped := [];
    var i := 0;
    while i < |entries|
      invariant 0 <= i <= |entries|
      invariant |filenames| == |data| == i
      invariant Collected(entries, i, quality, codec, classify) == Some(Collection(filenames, data))
      invariant skipped == Skipped(entries, i, classify)
    {
      var e := entries[i];
      filenames := filenames + [e.name];
      data := data + [[]];
      var kind := classify(e.name);
      if kind == Jpeg {
        var encoded := codec(e.data, JpegRgb(quality, true));
        if encoded.None? {
          return None, skipped;
        }
        data := data[i := encoded.value];
      } else if kind == Png {
        var encoded := codec(e.data, PngDefault);
        if encoded.None? {
          return None, skipped;
        }
        data := data[i := encoded.value];
      } else {
        skipped := skipped + [e.name];
      }
      assert data == data[..i] + [data[i]];
      i := i + 1;
    }
    r := Some(Collection(filenames, data));
  }

  /**
   * The write pass (CompressCBZ.py:49-51): entry i of the new archive is
   * `filenames[i]` with `data[i]`, for i in `range(len(filenames))`.
   */
  method WriteArchive(c: Collection) returns (archive: seq<Entry>)
    requires |c.filenames| <= |c.data|
    ensures Names(archive) == c.filenames
    ensures forall i | 0 <= i < |archive| :: archive[i].data == c.data[i]
  {
    archive := [];
    var i := 0;
    while i < |c.filenames|
      invariant 0 <= i <= |c.filenames|
      invariant |archive| == i
      invariant forall j | 0 <= j < i :: archive[j] == Entry(c.filenames[j], c.data[j])
    {
      archive := archive + [Entry(c.filenames[i], c.data[i])];
      i := i + 1;
    }
  }

  /**
   * A whole run from the parsed arguments. `input` is the archive stored
   * under the input name, or None when it cannot be opened as a zip.
   * Validation failures and read failures produce no output archive; a
   * successful run writes, under the resolved output name, one entry per
   * input entry, with the same name, in the same order.
   */
  method CompressArchive(inputName: string, outputName: string, quality: int,
                         input: Option<seq<Entry>>, codec: Codec, classify: Classifier)
    returns (o: Outcome)
    ensures o.Rejected? <==> Validate(inputName, outputName, quality).Failure?
    ensures o.Rejected? ==> o.error == Validate(inputName, outputName, quality).error
    ensures o.Written? <==>
              && Validate(inputName, outputName, quality).Success?
              && input.Some?
              && AllRecodable(input.value, quality, codec, classify)
    ensures o.Written? ==>
              && o.path == Validate(inputName, outputName, quality).value.output
              && Names(o.archive) == Names(input.value)
              && (forall i | 0 <= i < |o.archive| ::
                    Recompressed(input.value[i], quality, codec, classify) == Some(o.archive[i].data))
              && o.skipped == Skipped(input.value, |input.value|, classify)
    ensures o.Aborted? && input.None? ==> o.skipped == []
    ensures o.Aborted? && input.Some? ==> exists k | 0 <= k < |input.value| ::
              && Collected(input.value, k, quality, codec, classify).Some?
              && Recompressed(input.value[k], quality, codec, classify).None?
              && o.skipped == Skipped(input.value, k, classify)
  {
    var settings := Validate(inputName, outputName, quality);
    if settings.Failure? {
      return Rejected(settings.error);
    }
    if input.None? {
      return Aborted([]);
    }
    var collected, skipped := CollectImages(input.value, settings.value.quality, codec, classify);
    if collected.None? {
      return Aborted(skipped);
    }
    CollectedSpec(input.value, |input.value|, quality, codec, classify);
    assert input.value[..|input.value|] == input.value;
    var archive := WriteArchive(collected.value);
    o := Written(settings.value.output, archive, skipped);
  }

  /**
   * The program as written, run on `book.cbz` holding one page `page.jpeg`:
   * the page is reported as skipped and written back as an empty entry.
   */
  method AsWrittenDotJpegRun(page: Bytes, quality: int, codec: Codec) returns (o: Outcome)
    requires 1 <= quality <= 100
    ensures o == Written("book_compressed.cbz", [Entry("page.jpeg", [])], ["page.jpeg"])
  {
    var entries := [Entry("page.jpeg", page)];
    AsWrittenMissesDotJpeg("page");
    assert "page" + ".jpeg" == "page.jpeg";
    BookSettings(quality);
    assert Recompressed(entries[0], quality, codec, ClassifyAsWritten) == Some([]);
    assert Skipped(entries, 1, ClassifyAsWritten) == [] + ["page.jpeg"];
    o := CompressArchive("book.cbz", "", quality, Some(entries), codec, ClassifyAsWritten);
    assert o.Written?;
    assert |o.archive| == 1 && o.archive[0].name == "page.jpeg" && o.archive[0].data == [];
    assert o.archive == [Entry("page.jpeg", [])];
  }

  /**
   * The corrected program on the same archive: the page is recoded as a
   * JPEG at the configured quality, and nothing is reported.
   */
  method CorrectedDotJpegRun(page: Bytes, quality: int, codec: Codec) returns (o: Outcome)
    requires 1 <= quality <= 100
    requires codec(page, JpegRgb(quality, true)).Some?
    ensures o == Written("book_compressed.cbz",
                         [Entry("page.jpeg", codec(page, JpegRgb(quality, true)).value)], [])
  {
    var entries := [Entry("page.jpeg", page)];
    CorrectionScope("page.jpeg");
    assert EndsWith("page.jpeg", ".jpeg");
    BookSettings(quality);
    assert Recompressed(entries[0], quality, codec, Classify) == codec(page, JpegRgb(quality, true));
    assert Skipped(entries, 1, Classify) == [];
    o := CompressArchive("book.cbz", "", quality, Some(entries), codec, Classify);
    assert o.Written?;
    assert |o.archive| == 1 && o.archive[0].name == "page.jpeg";
    assert o.archive == [Entry("page.jpeg", codec(page, JpegRgb(quality, true)).value)];
  }

  /** `book.cbz` with no output name and a valid quality resolves to `book_compressed.cbz`. */
  lemma BookSettings(quality: int)
    requires 1 <= quality <= 100
    ensures Validate("book.cbz", "", quality) == Success(Settings("book.cbz", "book_compressed.cbz", quality))
  {
    assert LastN("book.cbz", 4) == ".cbz";
    assert AllButLastN("book.cbz", 4) == "book";
    assert DefaultOutputName("book.cbz") == "book" + "_compressed.cbz" == "book_compressed.cbz";
  }
}
