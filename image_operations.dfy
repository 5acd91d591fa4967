/**
 * The image side of the service: the deterministic file name the image
 * downloader gives each candidate (`Base64NameDownloader.get_filename`),
 * and the outcomes of the storage calls the item handlers depend on
 * (image acquisition, signed links, image deletion), which are not
 * modelled beyond what they may return.
 */
module ImageOperations {
  import opened Wrappers
  import opened Base64

  // ---------------------------------------------------------------------
  // get_filename
  // ---------------------------------------------------------------------

  /** The byte of `.` in the path's UTF-8 encoding. */
  const Dot: byte := 46

  /** The extensions kept from the URL, compared in lower case. */
  const ImageExtensions: seq<string> := ["jpg", "jpeg", "png", "bmp", "tiff", "gif", "ppm", "pgm"]

  /** ASCII lower case of one byte; any other byte is left as it is. */
  function LowerByte(b: byte): byte {
    if 65 <= b <= 90 then b + 32 else b
  }

  function Lower(s: seq<byte>): seq<byte> {
    seq(|s|, i requires 0 <= i < |s| => LowerByte(s[i]))
  }

  /** Bytes read as characters, one for one. */
  function AsText(s: seq<byte>): string {
    seq(|s|, i requires 0 <= i < |s| => s[i] as char)
  }

  /** Where the last piece of the path starts: just after its last `.`, or at 0 if it has none. */
  function LastPieceStart(path: seq<byte>): (k: nat)
    ensures k <= |path|
    ensures forall j :: k <= j < |path| ==> path[j] != Dot
    ensures 0 < k ==> path[k - 1] == Dot
    decreases |path|
  {
    if path == [] || path[|path| - 1] == Dot then |path|
    else LastPieceStart(path[..|path| - 1])
  }

  /** The last piece of the path when it is split at every `.`. */
  function AfterLastDot(path: seq<byte>): (r: seq<byte>)
    ensures |r| <= |path| && Dot !in r
    ensures |r| < |path| ==> path[|path| - |r| - 1] == Dot
  {
    path[LastPieceStart(path)..]
  }

  /**
   * The extension given to a downloaded file: the default, or the last
   * piece of the path, whose lower case is then whitelisted.
   */
  function Extension(path: seq<byte>, defaultExt: string): (e: string)
    ensures e == defaultExt || (Dot in path && e == AsText(AfterLastDot(path)))
    ensures e != defaultExt ==> AsText(Lower(AfterLastDot(path))) in ImageExtensions
  {
    if Dot in path then
      var candidate := AfterLastDot(path);
      if AsText(Lower(candidate)) in ImageExtensions then AsText(candidate) else defaultExt
    else defaultExt
  }

  /**
   * The file name for a candidate whose URL has path `path` (as UTF-8
   * bytes): the base 64 encoding of the path, a `.`, and the extension.
   */
  function GetFilename(path: seq<byte>, defaultExt: string): string {
    Encode(path) + "." + Extension(path, defaultExt)
  }

  /**
   * The extension policy: with no `.` in the path it is the default; else
   * the text after the last `.` is kept, in its own case, when its lower
   * case is one of the whitelisted extensions, and the default is used
   * otherwise.
   */
  lemma {:induction false} ExtensionPolicy(path: seq<byte>, defaultExt: string, i: nat)
    ensures Dot !in path ==> Extension(path, defaultExt) == defaultExt
    ensures i < |path| && path[i] == Dot && Dot !in path[i + 1..] ==>
              Extension(path, defaultExt) ==
                if AsText(Lower(path[i + 1..])) in ImageExtensions then AsText(path[i + 1..]) else defaultExt
  {
    if i < |path| && path[i] == Dot && Dot !in path[i + 1..] {
      assert forall j :: i < j < |path| ==> path[j] == path[i + 1..][j - i - 1];
      assert LastPieceStart(path) == i + 1;
    }
  }

  /** A whitelisted extension keeps its case: `a.JPG` is named `YS5KUEc=.JPG`. */
  lemma UpperCaseExtensionKept()
    ensures GetFilename([97, 46, 74, 80, 71], "png") == "YS5KUEc=.JPG"
  {
    SampleEncoding();
    SampleExtension();
  }

  lemma SampleEncoding()
    ensures Encode([97, 46, 74, 80, 71]) == "YS5KUEc="
  {
    var path: seq<byte> := [97, 46, 74, 80, 71];
    EncodeStep(path);
    assert path[3..] == [80, 71];
    SampleGroup();
    SampleTail();
  }

  lemma SampleGroup()
    ensures EncodeGroup(97, 46, 74) == "YS5K"
  {
    assert EncodeGroup(97, 46, 74) == [Symbol(24), Symbol(18), Symbol(57), Symbol(10)];
    assert Symbol(24) == 'Y' && Symbol(18) == 'S' && Symbol(57) == '5' && Symbol(10) == 'K';
  }

  lemma SampleTail()
    ensures Encode([80, 71]) == "UEc="
  {
    assert Encode([80, 71]) == EncodeTwo(80, 71) == [Symbol(20), Symbol(4), Symbol(28), '='];
    assert Symbol(20) == 'U' && Symbol(4) == 'E' && Symbol(28) == 'c';
  }

  lemma SampleExtension()
    ensures Extension([97, 46, 74, 80, 71], "png") == "JPG"
  {
    var path: seq<byte> := [97, 46, 74, 80, 71];
    ExtensionPolicy(path, "png", 1);
    assert path[2..] == [74, 80, 71];
    assert AsText(Lower([74, 80, 71])) == "jpg";
    assert AsText([74, 80, 71]) == "JPG";
  }

  /**
   * A file name splits at its first `.` into the base 64 encoding of the
   * path, of length 4 * ceil(n / 3), which decodes back to the path, and
   * the extension.
   */
  lemma FilenameParts(path: seq<byte>, defaultExt: string)
    ensures var name, n := GetFilename(path, defaultExt), 4 * ((|path| + 2) / 3);
            && n < |name| && name[n] == '.'
            && (forall i :: 0 <= i < n ==> name[i] != '.')
            && name[..n] == Encode(path) && Decode(name[..n]) == path
            && name[n + 1..] == Extension(path, defaultExt)
  {
    var name, e := GetFilename(path, defaultExt), Encode(path);
    EncodeLength(path);
    EncodeHasNoDot(path);
    DecodeEncode(path);
    assert name[..|e|] == e;
  }

  /** Distinct paths get distinct file names, whatever the default extensions. */
  lemma FilenameInjective(p: seq<byte>, q: seq<byte>, dp: string, dq: string)
    ensures GetFilename(p, dp) == GetFilename(q, dq) ==> p == q
  {
    if GetFilename(p, dp) == GetFilename(q, dq) {
      var name := GetFilename(p, dp);
      FilenameParts(p, dp);
      FilenameParts(q, dq);
      var m, n := 4 * ((|p| + 2) / 3), 4 * ((|q| + 2) / 3);
      assert m == n;
    }
  }

  // ---------------------------------------------------------------------
  // The storage calls, by their outcomes
  // ---------------------------------------------------------------------

  /**
   * What `pull_and_upload_image` did: uploaded an image under `key`;
   * found no image (returned None); or raised, possibly after an image
   * had already been uploaded (`orphan`). As written, the function never
   * returns None: both of its `return None` statements follow an `except`
   * clause whose class expression is itself an unbound name, so every
   * failure it meant to absorb escapes instead. `NoImage` is kept so that
   * the handlers also cover the absorbing behaviour; with the code as it
   * stands that outcome does not occur.
   */
  datatype ImageOutcome = Uploaded(key: string) | NoImage | Raised(orphan: Option<string>)

  /** The objects an acquisition left in the bucket. */
  function Uploads(acquired: ImageOutcome): set<string> {
    match acquired
    case Uploaded(k) => {k}
    case NoImage => {}
    case Raised(orphan) => if orphan.Some? then {orphan.value} else {}
  }

  /**
   * What `create_presigned_url` did: returned a link; returned None after
   * a storage-client error it caught; or let any other exception escape.
   */
  datatype UrlOutcome = Url(url: string) | NoUrl | UrlRaised
}
