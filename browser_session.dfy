/** The browser session of gui/app.js: the `state.files` table (a Map from a
    file's id to what processImage stored for it, iterated in insertion
    order), the processing of dropped files into it, the removal of an entry
    and the summary recomputed after both. Decoding a file and encoding the
    canvas belong to the browser and are functions of a `BrowserEnv`. */
module BrowserSession {
  import opened Common
  import opened Resize
  import BrowserPipeline
  import Compressor

  /** Ids are the numbers Date.now() + Math.random() produces. */
  type Id = real

  /** A dropped file: its name, its mime type and its size in bytes. */
  datatype FileInfo = FileInfo(name: string, fileType: string, size: nat)

  /** The controls read at the start of processImage: the quality slider in
      percent, the format selector ("auto", or a format such as "png",
      "jpeg", "webp"), and the size caps, 0 when empty or unparsable. */
  datatype Settings = Settings(quality: int, format: string, maxWidth: nat, maxHeight: nat)

  /** What is stored for an id; the blob and the preview data URL are not modelled. */
  datatype Entry = Entry(originalName: string, fileName: string, originalSize: nat, compressedSize: nat)

  /** One canvas.toBlob call: the canvas size, the colour count its pixels were
      quantized to (PNG only), the mime type and the quality argument (all but PNG). */
  datatype EncodeCall = EncodeCall(width: nat, height: nat, quantizeColors: Option<nat>, mime: string, quality: Option<int>)

  /** Loading a file as an image (None when it fails to load) and the size of
      the blob toBlob yields (None when it yields no blob). */
  datatype BrowserEnv = BrowserEnv(load: FileInfo -> Option<Dims>, encode: EncodeCall -> Option<nat>)

  /** file.type.startsWith('image/') */
  predicate IsImageType(t: string)
  {
    |t| >= 6 && t[..6] == "image/"
  }

  /** Math.max(16, Math.floor(quality * 256)) with quality the slider over 100. */
  function ColorCount(qualityPercent: int): (n: nat)
    ensures n >= 16
    ensures qualityPercent >= 7 ==> 100 * n <= 256 * qualityPercent < 100 * n + 100
  {
    var c := (256 * qualityPercent) / 100;
    if c > 16 then c else 16
  }

  /** PNG is quantized and encoded without a quality, everything else is
      encoded with the quality. */
  function EncodeCallFor(size: Dims, mime: string, quality: int): (c: EncodeCall)
    ensures c.width == size.width && c.height == size.height && c.mime == mime
    ensures c.quantizeColors.Some? <==> mime == "image/png"
    ensures c.quality.Some? <==> mime != "image/png"
    ensures c.quality.Some? ==> c.quality.value == quality
  {
    if mime == "image/png" then EncodeCall(size.width, size.height, Some(ColorCount(quality)), mime, None)
    else EncodeCall(size.width, size.height, None, mime, Some(quality))
  }

  /** The entry processImage stores for a file, or None when it fails (the
      image does not load, or no blob comes back and reading its size throws). */
  function ProcessedEntry(env: BrowserEnv, file: FileInfo, settings: Settings): Option<Entry>
  {
    match env.load(file)
    case None => None
    case Some(dims) =>
      var size := BrowserPipeline.BrowserTarget(dims, settings.maxWidth, settings.maxHeight);
      var out := BrowserPipeline.ChooseOutput(file.fileType, file.name, settings.format);
      match env.encode(EncodeCallFor(size, out.mime, settings.quality))
      case None => None
      case Some(blobSize) =>
        Some(Entry(file.name, BrowserPipeline.RenamedFile(file.name, out.ext), file.size,
                   BrowserPipeline.StoredSize(blobSize, file.size, settings.format)))
  }

  /** An entry remembers the file's name and size; in "auto" mode it never
      records growth and keeps the file name (unless the name's extension
      holds a dollar sign, which the replacement expands); with an explicit
      format the name gets the format's extension. */
  lemma ProcessedEntrySpec(env: BrowserEnv, file: FileInfo, settings: Settings)
    ensures ProcessedEntry(env, file, settings).Some? ==>
      var e := ProcessedEntry(env, file, settings).value;
      && e.originalName == file.name && e.originalSize == file.size
      && (settings.format == "auto" ==> e.compressedSize <= file.size)
      && (settings.format == "auto" && '$' !in BrowserPipeline.LastSegment(file.name) ==> e.fileName == file.name)
      && (settings.format != "auto" ==>
            e.fileName == BrowserPipeline.RenamedFile(file.name, if settings.format == "jpeg" then "jpg" else settings.format))
    ensures env.load(file).None? ==> ProcessedEntry(env, file, settings).None?
  {
    if ProcessedEntry(env, file, settings).Some? {
      var dims := env.load(file).value;
      var out := BrowserPipeline.ChooseOutput(file.fileType, file.name, settings.format);
      var size := BrowserPipeline.BrowserTarget(dims, settings.maxWidth, settings.maxHeight);
      var blobSize := env.encode(EncodeCallFor(size, out.mime, settings.quality)).value;
      var e := ProcessedEntry(env, file, settings).value;
      assert e.fileName == BrowserPipeline.RenamedFile(file.name, out.ext);
      assert e.compressedSize == BrowserPipeline.StoredSize(blobSize, file.size, settings.format);
      if settings.format == "auto" {
        BrowserPipeline.StoredSizeSpec(blobSize, file.size, settings.format);
        assert out.ext == BrowserPipeline.LastSegment(file.name);
        BrowserPipeline.AutoKeepsName(file.name);
      }
    }
  }

  predicate Distinct(s: seq<Id>)
  {
    forall i, j :: 0 <= i < j < |s| ==> s[i] != s[j]
  }

  /** Dropping the last id of a distinct sequence leaves a distinct sequence
      without it. */
  lemma DistinctInit(s: seq<Id>)
    requires s != [] && Distinct(s)
    ensures Distinct(s[..|s| - 1]) && s[|s| - 1] !in s[..|s| - 1]
  {
  }

  lemma DistinctSnoc(s: seq<Id>, y: Id)
    requires Distinct(s) && y !in s
    ensures Distinct(s + [y])
  {
  }

  /** The ids of `s` other than `x`, in their order. */
  function Without(s: seq<Id>, x: Id): (r: seq<Id>)
    ensures forall y :: y in r <==> y in s && y != x
    ensures x !in s ==> r == s
    ensures Distinct(s) ==> Distinct(r)
  {
    if s == [] then []
    else
      var init, last := s[..|s| - 1], s[|s| - 1];
      assert s == init + [last];
      var rest := Without(init, x);
      if last == x then rest
      else
        if Distinct(s) then DistinctInit(s); DistinctSnoc(rest, last); rest + [last]
        else rest + [last]
  }

  /** Removal works piece by piece, so the remaining ids keep their order. */
  lemma {:induction false} WithoutAppend(a: seq<Id>, b: seq<Id>, x: Id)
    ensures Without(a + b, x) == Without(a, x) + Without(b, x)
    decreases |b|
  {
    if b == [] {
      assert a + b == a;
    } else {
      var init, last := b[..|b| - 1], b[|b| - 1];
      assert (a + b)[..|a + b| - 1] == a + init;
      assert (a + b)[|a + b| - 1] == last;
      WithoutAppend(a, init, x);
    }
  }

  /** Map.delete of an id that sits between `a` and `b` in the insertion
      order leaves `a` followed by `b`. */
  lemma WithoutSplice(a: seq<Id>, x: Id, b: seq<Id>)
    requires x !in a && x !in b
    ensures Without(a + [x] + b, x) == a + b
  {
    WithoutAppend(a + [x], b, x);
    WithoutAppend(a, [x], x);
    assert [x][..0] == [];
  }

  /** The sum of one size of the entries of `ids`. */
  function Total(ids: seq<Id>, files: map<Id, Entry>, size: Entry -> nat): nat
    requires forall id :: id in ids ==> id in files
  {
    if ids == [] then 0
    else
      var last := ids[|ids| - 1];
      assert last in ids;
      Total(ids[..|ids| - 1], files, size) + size(files[last])
  }

  /** The sum only looks at the entries of the ids summed over. */
  lemma {:induction false} TotalFrame(ids: seq<Id>, files: map<Id, Entry>, other: map<Id, Entry>, size: Entry -> nat)
    requires forall id :: id in ids ==> id in files && id in other && files[id] == other[id]
    ensures Total(ids, files, size) == Total(ids, other, size)
  {
    if ids != [] {
      assert ids[|ids| - 1] in ids;
      TotalFrame(ids[..|ids| - 1], files, other, size);
    }
  }

  /** Deleting an id takes exactly its entry's size off the total. */
  lemma {:induction false} TotalWithout(ids: seq<Id>, files: map<Id, Entry>, x: Id, size: Entry -> nat)
    requires Distinct(ids) && x in ids
    requires forall id :: id in ids ==> id in files
    ensures Total(Without(ids, x), files - {x}, size) + size(files[x]) == Total(ids, files, size)
  {
    var init, last := ids[..|ids| - 1], ids[|ids| - 1];
    assert ids == init + [last];
    DistinctInit(ids);
    if last == x {
      assert Without(ids, x) == init;
      TotalFrame(init, files - {x}, files, size);
    } else {
      assert x in init;
      TotalWithout(init, files, x, size);
      var rest := Without(init, x);
      assert Without(ids, x) == rest + [last];
      assert (rest + [last])[..|rest|] == rest;
    }
  }

  /** Adding a new id adds exactly its entry's size to the total. */
  lemma TotalAppend(ids: seq<Id>, files: map<Id, Entry>, x: Id, e: Entry, size: Entry -> nat)
    requires x !in ids
    requires forall id :: id in ids ==> id in files
    ensures Total(ids + [x], files[x := e], size) == Total(ids, files, size) + size(e)
  {
    assert (ids + [x])[..|ids|] == ids;
    TotalFrame(ids, files[x := e], files, size);
  }

  /** What the summary panel shows: the number of entries, both totals and
      the total reduction badge. */
  datatype SessionSummary = SessionSummary(count: nat, totalOriginal: nat, totalCompressed: nat, badge: BrowserPipeline.Badge)

  function OriginalSize(e: Entry): nat { e.originalSize }

  function CompressedSize(e: Entry): nat { e.compressedSize }

  /** updateSummary over the table: hidden (None) when it is empty. */
  function SummaryOf(order: seq<Id>, files: map<Id, Entry>): Option<SessionSummary>
    requires forall id :: id in order ==> id in files
  {
    if |files| == 0 then None
    else
      var o, c := Total(order, files, OriginalSize), Total(order, files, CompressedSize);
      Some(SessionSummary(|files|, o, c, BrowserPipeline.SummaryBadge(o, c)))
  }

  /** The panel is hidden exactly when the table is empty; otherwise its
      badge reads as the total reduction (0 for an empty total original). */
  lemma SummaryOfSpec(order: seq<Id>, files: map<Id, Entry>)
    requires forall id :: id in order ==> id in files
    requires forall id :: id in files ==> id in order
    ensures SummaryOf(order, files).None? <==> order == []
    ensures SummaryOf(order, files).Some? ==>
      var s := SummaryOf(order, files).value;
      BrowserPipeline.Denotes(s.badge, BrowserPipeline.SummaryReduction(s.totalOriginal, s.totalCompressed))
  {
    if order == [] {
      assert forall id :: id !in files;
      assert files == map[];
    } else {
      assert order[0] in order;
      var s := SummaryOf(order, files).value;
      BrowserPipeline.SummaryBadgeDenotes(s.totalOriginal, s.totalCompressed);
    }
  }

  /** `state.files` with the insertion order of its ids. */
  class Session {
    var order: seq<Id>
    var files: map<Id, Entry>

    /** Every id appears once in the order, and the ids in the order are
        exactly the keys of the table. */
    predicate Valid()
      reads this
    {
      && Distinct(order)
      && (forall id :: id in files ==> id in order)
      && (forall id :: id in order ==> id in files)
    }

    constructor ()
      ensures Valid() && order == [] && files == map[]
    {
      order := [];
      files := map[];
    }

    /** Map.set: an existing id keeps its place, a new one goes last. */
    method Put(id: Id, e: Entry)
      requires Valid()
      modifies this
      ensures Valid()
      ensures files == old(files)[id := e]
      ensures order == if id in old(files) then old(order) else old(order) + [id]
    {
      if id !in files {
        order := order + [id];
      }
      files := files[id := e];
    }

    /** updateSummary: the totals accumulate over the table in order. */
    method UpdateSummary() returns (summary: Option<SessionSummary>)
      requires Valid()
      ensures summary == SummaryOf(order, files)
    {
      if |files| == 0 {
        return None;
      }
      var totalOriginal, totalCompressed := 0, 0;
      for k := 0 to |order|
        invariant totalOriginal == Total(order[..k], files, OriginalSize)
        invariant totalCompressed == Total(order[..k], files, CompressedSize)
      {
        assert order[..k + 1][..k] == order[..k];
        totalOriginal := totalOriginal + files[order[k]].originalSize;
        totalCompressed := totalCompressed + files[order[k]].compressedSize;
      }
      assert order[..|order|] == order;
      var badge := BrowserPipeline.SummaryBadge(totalOriginal, totalCompressed);
      summary := Some(SessionSummary(|files|, totalOriginal, totalCompressed, badge));
    }

    /** removeFile: Map.delete of exactly that id (nothing when it is absent),
        then the summary. */
    method RemoveFile(id: Id) returns (summary: Option<SessionSummary>)
      requires Valid()
      modifies this
      ensures Valid()
      ensures files == old(files) - {id}
      ensures order == Without(old(order), id)
      ensures summary == SummaryOf(order, files)
    {
      files := files - {id};
      order := Without(order, id);
      summary := UpdateSummary();
    }

    /** processImage: on success the file's entry is stored under its id; on
        any failure the table is left as it was. */
    method ProcessImage(env: BrowserEnv, file: FileInfo, id: Id, settings: Settings)
      requires Valid()
      modifies this
      ensures Valid()
      ensures match ProcessedEntry(env, file, settings)
        case None => files == old(files) && order == old(order)
        case Some(e) =>
          files == old(files)[id := e]
          && order == if id in old(files) then old(order) else old(order) + [id]
    {
      var loaded := env.load(file);
      if loaded.None? {
        return;
      }
      var width, height := BrowserPipeline.BrowserResize(loaded.value.width, loaded.value.height,
                                                        settings.maxWidth, settings.maxHeight);
      var out := BrowserPipeline.ChooseOutput(file.fileType, file.name, settings.format);
      var blob := env.encode(EncodeCallFor(Dims(width, height), out.mime, settings.quality));
      if blob.None? {
        return;
      }
      var compressedSize := blob.value;
      if compressedSize >= file.size && settings.format == "auto" {
        compressedSize := file.size;
      }
      var fileName := BrowserPipeline.RenamedFile(file.name, out.ext);
      Put(id, Entry(file.name, fileName, file.size, compressedSize));
    }

    /** handleFiles: every file whose type is an image is processed under its
        id, in order; the summary is recomputed once at the end. */
    method HandleFiles(env: BrowserEnv, fileList: seq<FileInfo>, ids: seq<Id>, settings: Settings)
      returns (summary: Option<SessionSummary>)
      requires Valid() && |ids| == |fileList|
      modifies this
      ensures Valid()
      ensures files == Handled(old(files), fileList, ids, env, settings)
      ensures order == HandledOrder(old(order), old(files), fileList, ids, env, settings)
      ensures summary == SummaryOf(order, files)
    {
      for k := 0 to |fileList|
        invariant Valid()
        invariant files == Handled(old(files), fileList[..k], ids[..k], env, settings)
        invariant order == HandledOrder(old(order), old(files), fileList[..k], ids[..k], env, settings)
      {
        assert fileList[..k + 1][..k] == fileList[..k];
        assert ids[..k + 1][..k] == ids[..k];
        if IsImageType(fileList[k].fileType) {
          ProcessImage(env, fileList[k], ids[k], settings);
        }
      }
      assert fileList[..|fileList|] == fileList;
      assert ids[..|ids|] == ids;
      summary := UpdateSummary();
    }
  }

  /** The table after handleFiles has processed `fs` under `ids`. */
  function Handled(files: map<Id, Entry>, fs: seq<FileInfo>, ids: seq<Id>, env: BrowserEnv, settings: Settings)
    : map<Id, Entry>
    requires |ids| == |fs|
  {
    if fs == [] then files
    else
      var before := Handled(files, fs[..|fs| - 1], ids[..|ids| - 1], env, settings);
      var f := fs[|fs| - 1];
      if !IsImageType(f.fileType) then before
      else match ProcessedEntry(env, f, settings)
        case None => before
        case Some(e) => before[ids[|ids| - 1] := e]
  }

  /** The insertion order after handleFiles: the id of each image file that
      was processed goes last, unless the table already held it. */
  function HandledOrder(order: seq<Id>, files: map<Id, Entry>, fs: seq<FileInfo>, ids: seq<Id>, env: BrowserEnv, settings: Settings)
    : seq<Id>
    requires |ids| == |fs|
  {
    if fs == [] then order
    else
      var n := |fs| - 1;
      var before := HandledOrder(order, files, fs[..n], ids[..n], env, settings);
      if !IsImageType(fs[n].fileType) || ProcessedEntry(env, fs[n], settings).None? then before
      else if ids[n] in Handled(files, fs[..n], ids[..n], env, settings) then before
      else before + [ids[n]]
  }

  /** handleFiles keeps the earlier order as a prefix and appends only ids of
      processed image files, none that the table already held. */
  lemma {:induction false} HandledOrderExtends(order: seq<Id>, files: map<Id, Entry>, fs: seq<FileInfo>, ids: seq<Id>, env: BrowserEnv, settings: Settings)
    requires |ids| == |fs|
    ensures var r := HandledOrder(order, files, fs, ids, env, settings);
      |order| <= |r| && r[..|order|] == order
    ensures var r := HandledOrder(order, files, fs, ids, env, settings);
      forall j :: |order| <= j < |r| ==>
        (r[j] !in files
         && exists i :: (0 <= i < |fs| && ids[i] == r[j] && IsImageType(fs[i].fileType)
                         && ProcessedEntry(env, fs[i], settings).Some?))
  {
    if fs != [] {
      var n := |fs| - 1;
      HandledOrderExtends(order, files, fs[..n], ids[..n], env, settings);
      HandledOnlyImages(files, fs[..n], ids[..n], env, settings);
      var before := HandledOrder(order, files, fs[..n], ids[..n], env, settings);
      var r := HandledOrder(order, files, fs, ids, env, settings);
      forall j | |order| <= j < |r|
        ensures r[j] !in files
          && exists i :: (0 <= i < |fs| && ids[i] == r[j] && IsImageType(fs[i].fileType)
                          && ProcessedEntry(env, fs[i], settings).Some?)
      {
        if j < |before| {
          assert r[j] == before[j];
          var i :| (0 <= i < n && ids[..n][i] == before[j] && IsImageType(fs[..n][i].fileType)
                    && ProcessedEntry(env, fs[..n][i], settings).Some?);
          assert ids[i] == r[j] && fs[i] == fs[..n][i];
        } else {
          assert r[j] == ids[n];
        }
      }
    }
  }

  /** handleFiles adds entries only under the ids of image files that were
      processed, and never drops an entry. */
  lemma {:induction false} HandledOnlyImages(files: map<Id, Entry>, fs: seq<FileInfo>, ids: seq<Id>, env: BrowserEnv, settings: Settings)
    requires |ids| == |fs|
    ensures files.Keys <= Handled(files, fs, ids, env, settings).Keys
    ensures forall id :: id in Handled(files, fs, ids, env, settings) && id !in files ==>
      exists i :: (0 <= i < |fs| && ids[i] == id && IsImageType(fs[i].fileType)
                   && ProcessedEntry(env, fs[i], settings).Some?)
  {
    if fs != [] {
      var n := |fs| - 1;
      HandledOnlyImages(files, fs[..n], ids[..n], env, settings);
      forall id | id in Handled(files, fs, ids, env, settings) && id !in files
        ensures exists i :: (0 <= i < |fs| && ids[i] == id && IsImageType(fs[i].fileType)
                             && ProcessedEntry(env, fs[i], settings).Some?)
      {
        if id in Handled(files, fs[..n], ids[..n], env, settings) {
          var i :| (0 <= i < n && ids[..n][i] == id && IsImageType(fs[..n][i].fileType)
                    && ProcessedEntry(env, fs[..n][i], settings).Some?);
          assert ids[i] == id && fs[i] == fs[..n][i];
        } else {
          assert ids[n] == id;
        }
      }
    }
  }
}
