/** The decisions processImage, updateResultCard, updateSummary and formatSize
    of gui/app.js make about one dropped file: the target canvas size, the
    output mime type and extension, the renamed file, whether the original file
    is kept, the reduction badge and the size unit. */
module BrowserPipeline {
  import opened Common
  import opened JsMath
  import opened Resize
  import Paths
  import Sizes
  import Compressor

  // Resize (Math.round instead of the Python side's truncation).

  /** First pass: only a canvas wider than the cap is scaled to it. */
  function JsWidthPass(d: Dims, maxWidth: nat): Dims
  {
    if maxWidth > 0 && d.width > maxWidth then Dims(maxWidth, RoundDiv(d.height * maxWidth, d.width)) else d
  }

  /** Second pass on the updated height, overriding the width. */
  function JsHeightPass(d: Dims, maxHeight: nat): Dims
  {
    if maxHeight > 0 && d.height > maxHeight then Dims(RoundDiv(d.width * maxHeight, d.height), maxHeight) else d
  }

  /** The canvas size; a cap of 0 is an empty or unparsable field. */
  function BrowserTarget(d: Dims, maxWidth: nat, maxHeight: nat): Dims
  {
    JsHeightPass(JsWidthPass(d, maxWidth), maxHeight)
  }

  /** Rounding a proportional length scaled by a ratio below one never grows it. */
  lemma {:induction false} RoundScaleDown(a: nat, c: nat, b: nat)
    requires c < b
    ensures RoundDiv(a * c, b) <= a
  {
    var q := RoundDiv(a * c, b);
    var p := a * c;
    RoundDivHalfway(p, b);
    assert 2 * b * q == 2 * (b * q);
    if a > 0 {
      MultiplesApart(a, c, b);
    }
    assert p <= a * b;
    if q > a {
      MultiplesApart(b, a, q);
    }
  }

  lemma JsPassesShrink(d: Dims, maxWidth: nat, maxHeight: nat)
    ensures JsWidthPass(d, maxWidth).width <= d.width && JsWidthPass(d, maxWidth).height <= d.height
    ensures JsHeightPass(d, maxHeight).width <= d.width && JsHeightPass(d, maxHeight).height <= d.height
  {
    if maxWidth > 0 && d.width > maxWidth { RoundScaleDown(d.height, maxWidth, d.width); }
    if maxHeight > 0 && d.height > maxHeight { RoundScaleDown(d.width, maxHeight, d.height); }
  }

  /** As on the Python side: no upscaling and every given cap holds. */
  lemma BrowserNoUpscaleWithinCaps(d: Dims, maxWidth: nat, maxHeight: nat)
    ensures BrowserTarget(d, maxWidth, maxHeight).width <= d.width
    ensures BrowserTarget(d, maxWidth, maxHeight).height <= d.height
    ensures maxWidth > 0 ==> BrowserTarget(d, maxWidth, maxHeight).width <= maxWidth
    ensures maxHeight > 0 ==> BrowserTarget(d, maxWidth, maxHeight).height <= maxHeight
  {
    JsPassesShrink(d, maxWidth, maxHeight);
    JsPassesShrink(JsWidthPass(d, maxWidth), maxWidth, maxHeight);
  }

  /** The canvas keeps the image's size exactly when no axis exceeds its cap. */
  lemma BrowserUnchangedIffWithinCaps(d: Dims, maxWidth: nat, maxHeight: nat)
    ensures BrowserTarget(d, maxWidth, maxHeight) == d <==>
      (maxWidth == 0 || d.width <= maxWidth) && (maxHeight == 0 || d.height <= maxHeight)
  {
    JsPassesShrink(JsWidthPass(d, maxWidth), maxWidth, maxHeight);
  }

  /** With only a width cap, both sides agree on the width and the browser's
      height is the Python height or one more (round versus truncate). */
  lemma {:induction false} BrowserHeightRoundsUp(d: Dims, maxWidth: nat)
    ensures BrowserTarget(d, maxWidth, 0).width == TargetSize(d, maxWidth, 0).width
    ensures var js, py := BrowserTarget(d, maxWidth, 0).height, TargetSize(d, maxWidth, 0).height;
      js == py || js == py + 1
  {
    if maxWidth > 0 && d.width > maxWidth {
      RoundDivFloor(d.height * maxWidth, d.width);
    }
  }

  /** The shared example, and one where rounding and truncation part ways. */
  lemma BrowserResizeExamples()
    ensures BrowserTarget(Dims(3000, 2000), 1500, 600) == Dims(900, 600)
    ensures BrowserTarget(Dims(3, 4), 2, 0) == Dims(2, 3)
    ensures TargetSize(Dims(3, 4), 2, 0) == Dims(2, 2)
  {
  }

  /** The resize block of processImage, reassigning width and height. */
  method BrowserResize(width: nat, height: nat, maxWidth: nat, maxHeight: nat) returns (w: nat, h: nat)
    ensures Dims(w, h) == BrowserTarget(Dims(width, height), maxWidth, maxHeight)
  {
    w, h := width, height;
    if maxWidth > 0 && w > maxWidth {
      h := RoundDiv(h * maxWidth, w);
      w := maxWidth;
    }
    if maxHeight > 0 && h > maxHeight {
      w := RoundDiv(w * maxHeight, h);
      h := maxHeight;
    }
  }

  // Output type and file name.

  datatype OutputType = OutputType(mime: string, ext: string)

  /** name.split('.').pop(): what follows the last dot, or the whole name. */
  function LastSegment(name: string): string
  {
    name[Paths.LastIndexOf(name, '.') + 1..]
  }

  /** The mime type and extension: the file's own in "auto" mode, otherwise
      image/<format> and the format, "jpeg" written "jpg". */
  function ChooseOutput(fileType: string, fileName: string, format: string): OutputType
  {
    if format != "auto" then OutputType("image/" + format, if format == "jpeg" then "jpg" else format)
    else OutputType(fileType, LastSegment(fileName))
  }

  /** An explicit format fixes the mime type and the extension; "auto" keeps
      the file's type and its last dot segment, which holds no dot. */
  lemma ChooseOutputSpec(fileType: string, fileName: string, format: string)
    ensures var o := ChooseOutput(fileType, fileName, format);
      format != "auto" ==>
        o.mime == "image/" + format && o.ext != "jpeg" && (format != "jpeg" ==> o.ext == format)
    ensures var o := ChooseOutput(fileType, fileName, format);
      format == "auto" ==>
        && o.mime == fileType
        && (forall k :: 0 <= k < |o.ext| ==> o.ext[k] != '.')
        && (Paths.LastIndexOf(fileName, '.') < 0 ==> o.ext == fileName)
        && (Paths.LastIndexOf(fileName, '.') >= 0 ==>
              fileName == fileName[..Paths.LastIndexOf(fileName, '.')] + "." + o.ext)
  {
    var i := Paths.LastIndexOf(fileName, '.');
    if format == "auto" && i >= 0 {
      assert fileName == fileName[..i] + [fileName[i]] + fileName[i + 1..];
    }
  }

  /** The PNG path (quantize, then encode without a quality) is taken exactly
      for image/png: the file's own type in "auto" mode, format "png" otherwise. */
  lemma PngPathChoice(fileType: string, fileName: string, format: string)
    ensures ChooseOutput(fileType, fileName, format).mime == "image/png" <==>
      (if format == "auto" then fileType == "image/png" else format == "png")
  {
    if format != "auto" && "image/" + format == "image/png" {
      assert format == ("image/" + format)[6..];
    }
  }

  /** The replacement text String.prototype.replace builds from a template
      when the pattern has no capture groups (GetSubstitution in the
      ECMAScript specification): "$$" is a dollar sign, "$&" the matched
      text, "$`" the text before the match, "$'" the text after it; any other
      character, a lone "$" included, stands for itself. */
  function Substitution(t: string, matched: string, before: string, after: string): string
    decreases |t|
  {
    if t == [] then []
    else if t[0] == '$' && |t| >= 2 && t[1] in "$&`'" then
      (if t[1] == '$' then "$" else if t[1] == '&' then matched else if t[1] == '`' then before else after)
        + Substitution(t[2..], matched, before, after)
    else [t[0]] + Substitution(t[1..], matched, before, after)
  }

  /** A template without a dollar sign is inserted as it is. */
  lemma {:induction false} SubstitutionPlain(t: string, matched: string, before: string, after: string)
    requires '$' !in t
    ensures Substitution(t, matched, before, after) == t
    decreases |t|
  {
    if t != [] {
      assert '$' !in t[1..] by {
        assert forall k :: 0 <= k < |t[1..]| ==> t[1..][k] == t[k + 1];
      }
      SubstitutionPlain(t[1..], matched, before, after);
      assert t == [t[0]] + t[1..];
    }
  }

  /** name.replace(/\.[^.]+$/, "." + ext): the last dot and the non-empty,
      dot-free rest of the name are replaced by the expanded template; a name
      without a dot, or ending in one, is left as it is. */
  function RenamedFile(name: string, ext: string): string
  {
    var i := Paths.LastIndexOf(name, '.');
    if 0 <= i < |name| - 1 then name[..i] + Substitution("." + ext, name[i..], name[..i], "") else name
  }

  /** For an extension without a dollar sign the replacement is plain splicing. */
  lemma RenamedFilePlain(name: string, ext: string)
    requires '$' !in ext
    ensures var i := Paths.LastIndexOf(name, '.');
      RenamedFile(name, ext) == if 0 <= i < |name| - 1 then name[..i] + "." + ext else name
  {
    var i := Paths.LastIndexOf(name, '.');
    if 0 <= i < |name| - 1 {
      DotTemplatePlain(ext, name[i..], name[..i]);
    }
  }

  lemma DotTemplatePlain(ext: string, matched: string, before: string)
    requires '$' !in ext
    ensures Substitution("." + ext, matched, before, "") == "." + ext
  {
    var t := "." + ext;
    assert t[1..] == ext;
    SubstitutionPlain(ext, matched, before, "");
  }

  /** Renaming keeps everything before the last dot and makes the extension
      the last dot segment, when the name has an extension to replace. */
  lemma {:induction false} RenameSetsExtension(name: string, ext: string)
    requires ext != "" && forall k :: 0 <= k < |ext| ==> ext[k] != '.' && ext[k] != '$'
    ensures var i := Paths.LastIndexOf(name, '.');
      0 <= i < |name| - 1 ==>
        && RenamedFile(name, ext)[..i] == name[..i]
        && LastSegment(RenamedFile(name, ext)) == ext
    ensures var i := Paths.LastIndexOf(name, '.');
      !(0 <= i < |name| - 1) ==> RenamedFile(name, ext) == name
  {
    RenamedFilePlain(name, ext);
    var i := Paths.LastIndexOf(name, '.');
    if 0 <= i < |name| - 1 {
      var head := name[..i] + ".";
      var r := head + ext;
      assert r[i] == '.';
      Paths.LastIndexOfAppend(head, ext, '.');
      assert Paths.LastIndexOf(ext, '.') == -1;
      assert Paths.LastIndexOf(head, '.') == i;
      assert r[i + 1..] == ext;
    }
  }

  /** Renaming to a name's own last dot segment ("auto" mode) changes nothing,
      unless that segment holds a dollar sign the replacement expands. */
  lemma {:induction false} AutoKeepsName(name: string)
    ensures '$' !in LastSegment(name) ==> RenamedFile(name, LastSegment(name)) == name
  {
    var i := Paths.LastIndexOf(name, '.');
    if '$' !in LastSegment(name) {
      RenamedFilePlain(name, LastSegment(name));
      if 0 <= i < |name| - 1 {
        assert name == name[..i] + [name[i]] + name[i + 1..];
      }
    }
  }

  /** With a dollar sign in the extension, "auto" mode does rename: "x.a$$"
      becomes "x.a$" ... */
  lemma AutoRenameExpandsDollar()
    ensures RenamedFile("x.a$$", LastSegment("x.a$$")) == "x.a$"
  {
    var n := "x.a$$";
    assert Paths.LastIndexOf(n, '.') == 1 by {
      assert n[1] == '.' && n[2] != '.' && n[3] != '.' && n[4] != '.';
    }
    assert n[..1] == "x" && n[1..] == ".a$$" && n[2..] == "a$$";
    var m := ".a$$";
    assert "$$"[2..] == [] && "a$$"[1..] == "$$" && m[1..] == "a$$";
    assert Substitution([], m, "x", "") == [];
    assert Substitution("$$", m, "x", "") == "$";
    assert Substitution("a$$", m, "x", "") == "a$";
    assert Substitution(m, m, "x", "") == ".a$";
    assert "x" + ".a$" == "x.a$";
  }

  /** ... and "x.$&" becomes "x..$&", the matched text inserted after the dot. */
  lemma AutoRenameExpandsMatch()
    ensures RenamedFile("x.$&", LastSegment("x.$&")) == "x..$&"
  {
    var n := "x.$&";
    assert Paths.LastIndexOf(n, '.') == 1 by {
      assert n[1] == '.' && n[2] != '.' && n[3] != '.';
    }
    assert n[..1] == "x" && n[1..] == ".$&" && n[2..] == "$&";
    var m := ".$&";
    assert "$&"[2..] == [] && m[1..] == "$&";
    assert Substitution([], m, "x", "") == [];
    assert Substitution("$&", m, "x", "") == m;
    assert Substitution(m, m, "x", "") == "." + m;
    assert "x" + ("." + m) == "x..$&";
  }

  /** Renaming twice to the same extension is renaming once. */
  lemma RenameIdempotent(name: string, ext: string)
    requires ext != "" && forall k :: 0 <= k < |ext| ==> ext[k] != '.' && ext[k] != '$'
    ensures RenamedFile(RenamedFile(name, ext), ext) == RenamedFile(name, ext)
  {
    RenameSetsExtension(name, ext);
    var i := Paths.LastIndexOf(name, '.');
    if 0 <= i < |name| - 1 {
      var r := RenamedFile(name, ext);
      RenamedFilePlain(r, ext);
      RenamedFilePlain(name, ext);
      assert Paths.LastIndexOf(r, '.') == i by {
        Paths.LastIndexOfAppend(name[..i] + ".", ext, '.');
        assert Paths.LastIndexOf(ext, '.') == -1;
        assert Paths.LastIndexOf(name[..i] + ".", '.') == i;
      }
      assert r[..i] == name[..i];
    }
  }

  // Keeping the original file.

  /** The size of the blob stored for the file: in "auto" mode an encoding that
      is not smaller than the file is replaced by the file itself. */
  function StoredSize(encodedSize: nat, fileSize: nat, format: string): nat
  {
    if encodedSize >= fileSize && format == "auto" then fileSize else encodedSize
  }

  /** "auto" mode stores the smaller of the two, so it never grows a file; an
      explicit format stores the encoding whatever its size. */
  lemma StoredSizeSpec(encodedSize: nat, fileSize: nat, format: string)
    ensures format == "auto" ==>
      StoredSize(encodedSize, fileSize, format) <= fileSize
      && StoredSize(encodedSize, fileSize, format) <= encodedSize
      && (StoredSize(encodedSize, fileSize, format) == fileSize || StoredSize(encodedSize, fileSize, format) == encodedSize)
    ensures format != "auto" ==> StoredSize(encodedSize, fileSize, format) == encodedSize
  {
  }

  // Reduction badges.

  /** A JavaScript number as far as the reduction can come out. */
  datatype JsNumber = Finite(value: real) | NaN | PosInfinity | NegInfinity

  function JsAbs(x: JsNumber): JsNumber
  {
    match x
    case Finite(v) => Finite(if v < 0.0 then -v else v)
    case NaN => NaN
    case PosInfinity => PosInfinity
    case NegInfinity => PosInfinity
  }

  /** (original - compressed) / original * 100 in floating point: 0/0 is NaN
      and a positive size over an empty original is -Infinity. */
  function CardReduction(originalSize: nat, compressedSize: nat): JsNumber
  {
    if originalSize > 0 then Finite(Compressor.Reduction(originalSize, compressedSize))
    else if compressedSize == 0 then NaN
    else NegInfinity
  }

  datatype Sign = Minus | Plus

  /** The sign printed before the number and the number printed. */
  datatype Badge = Badge(sign: Sign, shown: JsNumber)

  /** updateResultCard: "-x%" when the reduction is at least 0, "+|x|%" (and
      the negative style) otherwise, NaN included. */
  function CardBadge(reduction: JsNumber): Badge
  {
    if reduction.Finite? && reduction.value >= 0.0 then Badge(Minus, reduction)
    else Badge(Plus, JsAbs(reduction))
  }

  /** A badge reads as the reduction x: "-m" for x == m >= 0, "+m" for x == -m < 0. */
  predicate Denotes(b: Badge, x: real)
  {
    && b.shown.Finite?
    && (b.sign == Minus ==> b.shown.value >= 0.0 && x == b.shown.value)
    && (b.sign == Plus ==> b.shown.value > 0.0 && x == -b.shown.value)
  }

  /** For a non-empty original the card's badge reads as the reduction, and its
      sign is "-" exactly when the file did not grow; for an empty original the
      badge is "+" with NaN or Infinity. */
  lemma CardBadgeSpec(originalSize: nat, compressedSize: nat)
    ensures var b := CardBadge(CardReduction(originalSize, compressedSize));
      originalSize > 0 ==>
        Denotes(b, Compressor.Reduction(originalSize, compressedSize))
        && (b.sign == Minus <==> compressedSize <= originalSize)
    ensures var b := CardBadge(CardReduction(originalSize, compressedSize));
      originalSize == 0 ==> b.sign == Plus && !b.shown.Finite?
  {
    Compressor.ReductionSpec(originalSize, compressedSize);
  }

  /** In "auto" mode a card never shows growth: the stored blob is never larger. */
  lemma AutoBadgeNeverPlus(encodedSize: nat, fileSize: nat)
    requires fileSize > 0
    ensures CardBadge(CardReduction(fileSize, StoredSize(encodedSize, fileSize, "auto"))).sign == Minus
  {
    var stored := StoredSize(encodedSize, fileSize, "auto");
    CardBadgeSpec(fileSize, stored);
  }

  /** The total reduction updateSummary computes: 0 for an empty total. */
  function SummaryReduction(totalOriginal: nat, totalCompressed: nat): real
  {
    if totalOriginal > 0 then Compressor.Reduction(totalOriginal, totalCompressed) else 0.0
  }

  /** updateSummary as written: "-" is put before the signed reduction, so a
      total that grew shows a double minus. */
  function SummaryBadgeAsWritten(totalOriginal: nat, totalCompressed: nat): Badge
  {
    Badge(Minus, Finite(SummaryReduction(totalOriginal, totalCompressed)))
  }

  /** Growth by a fifth is shown as "--20.0%", which does not read as the
      reduction of -20. */
  lemma SummaryBadgeAsWrittenMisreads()
    ensures SummaryBadgeAsWritten(1000, 1200) == Badge(Minus, Finite(-20.0))
    ensures !Denotes(SummaryBadgeAsWritten(1000, 1200), SummaryReduction(1000, 1200))
  {
  }

  /** The summary badge with the card's sign rule. */
  function SummaryBadge(totalOriginal: nat, totalCompressed: nat): Badge
  {
    CardBadge(Finite(SummaryReduction(totalOriginal, totalCompressed)))
  }

  /** The corrected summary badge always reads as the total reduction, and
      agrees with the card's badge whenever the total original is non-empty. */
  lemma SummaryBadgeDenotes(totalOriginal: nat, totalCompressed: nat)
    ensures Denotes(SummaryBadge(totalOriginal, totalCompressed), SummaryReduction(totalOriginal, totalCompressed))
    ensures totalOriginal > 0 ==>
      SummaryBadge(totalOriginal, totalCompressed) == CardBadge(CardReduction(totalOriginal, totalCompressed))
  {
  }

  /** The badge as written and the corrected one coincide exactly when the
      total did not grow: they part ways only on a negative reduction. */
  lemma SummaryBadgeAgreesUnlessGrowth(totalOriginal: nat, totalCompressed: nat)
    ensures SummaryBadge(totalOriginal, totalCompressed) == SummaryBadgeAsWritten(totalOriginal, totalCompressed)
      <==> SummaryReduction(totalOriginal, totalCompressed) >= 0.0
  {
  }

  // Size units.

  /** formatSize: B below 1024, KB below 1024 * 1024, MB for everything else. */
  function FormatSizeJs(bytes: nat): (real, Sizes.Unit)
  {
    if bytes < 1024 then (bytes as real, Sizes.B)
    else if bytes < 1048576 then (bytes as real / 1024.0, Sizes.KB)
    else (bytes as real / 1048576.0, Sizes.MB)
  }

  /** Below 1024^3 the browser and the command line choose the same unit and
      magnitude; from there on the browser stays at MB with a magnitude of at
      least 1024. */
  lemma FormatSizeAgreement(bytes: nat)
    ensures bytes < 1073741824 ==>
      var k := Sizes.UnitIndex(bytes as real);
      FormatSizeJs(bytes) == (bytes as real / Sizes.Pow1024(k), Sizes.UnitLadder[k])
    ensures bytes >= 1073741824 ==>
      FormatSizeJs(bytes).1 == Sizes.MB && FormatSizeJs(bytes).0 >= 1024.0
  {
    var x := bytes as real;
    assert Sizes.Pow1024(0) == 1.0;
    assert Sizes.Pow1024(1) == 1024.0;
    assert Sizes.Pow1024(2) == 1048576.0;
    if bytes < 1024 {
      assert Sizes.UnitIndex(x) == 0;
    } else if bytes < 1048576 {
      assert Sizes.UnitIndex(x) == 1;
    } else if bytes < 1073741824 {
      assert Sizes.UnitIndex(x) == 2;
    } else {
      assert x / 1048576.0 >= 1024.0;
    }
  }
}
