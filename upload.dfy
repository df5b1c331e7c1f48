/** The upload step of the page: which selected files are accepted, and how a
    HEIC photo is renamed once the browser-side converter has produced a JPEG. */
module Upload {
  import opened Js

  /** Opaque handle for the bytes of a file or of a converted blob. */
  type Blob = nat

  /** A browser `File`: its name, its declared MIME type and its contents. */
  datatype File = File(name: string, mimeType: string, contents: Blob)

  /** The guard of the upload handler: the declared type starts with `image/`. */
  predicate IsImageType(mimeType: string): (b: bool)
    ensures b <==> |mimeType| >= 6 && forall k :: 0 <= k < 6 ==> mimeType[k] == "image/"[k]
  {
    StartsWith(mimeType, "image/")
  }

  /** The HEIC test: the declared type is exactly `image/heic`, or the name ends
      in `.heic` in any letter case. */
  predicate IsHeic(f: File): (b: bool)
    ensures b <==> f.mimeType == "image/heic" ||
                   (|f.name| >= 5 && forall k :: 0 <= k < 5 ==> LowerChar(f.name[|f.name| - 5 + k]) == ".heic"[k])
  {
    HeicSuffixByChar(f.name);
    f.mimeType == "image/heic" || EndsWith(Lower(f.name), ".heic")
  }

  /** The lower-cased name ends in `.heic` exactly when its last five
      characters lower-case, one by one, to `.heic`. */
  lemma HeicSuffixByChar(name: string)
    ensures EndsWith(Lower(name), ".heic") <==>
              |name| >= 5 && forall k :: 0 <= k < 5 ==> LowerChar(name[|name| - 5 + k]) == ".heic"[k]
  {
    var l := Lower(name);
    if |name| >= 5 {
      var tail := l[|l| - 5..];
      assert forall k :: 0 <= k < 5 ==> tail[k] == LowerChar(name[|name| - 5 + k]);
    }
  }

  /** Position `i` starts what `/\.[^/.]+$/` matches: a dot followed, up to the
      end of the name, by at least one character that is neither a dot nor a
      slash. */
  predicate ExtensionAt(name: string, i: int) {
    0 <= i < |name| - 1 && name[i] == '.' &&
    forall j :: i < j < |name| ==> name[j] != '.' && name[j] != '/'
  }

  /** The position of the last dot in `s`, if there is one. */
  function LastDot(s: string): (r: Option<nat>)
    ensures r.Some? ==> r.value < |s| && s[r.value] == '.'
    ensures r.Some? ==> forall j :: r.value < j < |s| ==> s[j] != '.'
    ensures r.None? ==> forall j :: 0 <= j < |s| ==> s[j] != '.'
  {
    if s == [] then None
    else if s[|s| - 1] == '.' then Some(|s| - 1)
    else LastDot(s[..|s| - 1])
  }

  /** `name.replace(/\.[^/.]+$/, ".jpg")`: the final extension becomes `.jpg`;
      a name the pattern does not match is returned as it is. */
  function ReplaceExtension(name: string): (r: string)
    ensures forall i :: ExtensionAt(name, i) ==> r == name[..i] + ".jpg"
    ensures (forall i :: !ExtensionAt(name, i)) ==> r == name
  {
    match LastDot(name)
    case Some(i) => if ExtensionAt(name, i) then name[..i] + ".jpg" else name
    case None => name
  }

  /** Renaming twice is renaming once: a name that already ends in `.jpg` keeps it. */
  lemma ReplaceExtensionIdempotent(name: string)
    ensures ReplaceExtension(ReplaceExtension(name)) == ReplaceExtension(name)
  {
    var r := ReplaceExtension(name);
    if i :| ExtensionAt(name, i) {
      assert r == name[..i] + ".jpg";
      assert r[i + 1..] == "jpg";
      assert ExtensionAt(r, i);
      assert r[..i] == name[..i];
    }
  }

  /** The file produced from a HEIC upload and the converter's JPEG blob. */
  function Converted(f: File, jpeg: Blob): File {
    File(ReplaceExtension(f.name), "image/jpeg", jpeg)
  }

  /** The file the upload handler keeps, if any, given the picked file (absent
      when the picker returned nothing) and how the HEIC converter would settle. */
  function Accept(file: Option<File>, conversion: Settled<Blob>): (r: Option<File>)
    ensures file.None? || !IsImageType(file.value.mimeType) ==> r.None?
    ensures file.Some? && IsHeic(file.value) && conversion.Rejected? ==> r.None?
    ensures file.Some? && IsImageType(file.value.mimeType) && !IsHeic(file.value) ==> r == file
    ensures file.Some? && IsImageType(file.value.mimeType) && IsHeic(file.value) && conversion.Fulfilled? ==>
              r.Some? && r.value.mimeType == "image/jpeg" && r.value.contents == conversion.value &&
              r.value.name == ReplaceExtension(file.value.name)
  {
    if file.None? || !IsImageType(file.value.mimeType) then None
    else if !IsHeic(file.value) then file
    else match conversion
      case Fulfilled(jpeg) => Some(Converted(file.value, jpeg))
      case Rejected => None
  }

  /** A name whose last letter is not a `c` in either case is not a HEIC
      name; with any declared type but `image/heic` the file is not HEIC. */
  lemma NotHeicByLastChar(f: File)
    requires f.mimeType != "image/heic"
    requires |f.name| > 0 && LowerChar(f.name[|f.name| - 1]) != 'c'
    ensures !IsHeic(f)
  {
    var l := Lower(f.name);
    if |l| >= 5 {
      assert l[|l| - 5..][4] == l[|l| - 1];
    }
  }

  lemma LowerIsLetter(c: char)
    requires LowerChar(c) in "heic"
    ensures c != '.' && c != '/'
  {
  }

  /** A name whose lower-cased form ends in `.heic` has an extension starting
      at that dot. */
  lemma {:induction false} HeicNameHasExtension(name: string)
    requires EndsWith(Lower(name), ".heic")
    ensures ExtensionAt(name, |name| - 5)
  {
    var l := Lower(name);
    var k := |name| - 5;
    assert l[k..] == ".heic";
    assert l[k] == '.';
    forall j | k < j < |name|
      ensures name[j] != '.' && name[j] != '/'
    {
      assert l[j] == ".heic"[j - k];
      LowerIsLetter(name[j]);
    }
  }

  /** Every file the upload handler keeps is an image and is not HEIC: a HEIC
      file is only kept after conversion, and the converted name no longer
      ends in `.heic`. */
  lemma AcceptedIsDisplayable(file: Option<File>, conversion: Settled<Blob>)
    ensures Accept(file, conversion).Some? ==>
              IsImageType(Accept(file, conversion).value.mimeType) &&
              !IsHeic(Accept(file, conversion).value)
  {
    var r := Accept(file, conversion);
    if r.Some? && file.Some? && IsHeic(file.value) {
      var f := r.value;
      var name := file.value.name;
      assert f.mimeType[..6] == "image/";
      if i :| ExtensionAt(name, i) {
        assert f.name == name[..i] + ".jpg";
        NotHeicByLastChar(f);
      } else {
        assert f.name == name;
        if EndsWith(Lower(name), ".heic") {
          HeicNameHasExtension(name);
        }
      }
    }
  }

  /** The HEIC test ignores letter case: any name followed by `.HEIC`,
      `.Heic`, ... is treated as HEIC whatever its declared type. */
  lemma HeicSuffixAnyCase(name: string, suffix: string, mimeType: string, contents: Blob)
    requires Lower(suffix) == ".heic"
    ensures IsHeic(File(name + suffix, mimeType, contents))
  {
    var l := Lower(name + suffix);
    assert l[|name|..] == Lower(suffix);
  }
}
