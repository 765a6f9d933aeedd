/** The playlist service of backend/server.js. Uploaded media live in one
    directory; each playlist is a text file `<id>.txt`, one media file name
    per line, in one of two directories, "active" and "inactive". Every HTTP
    handler becomes an operation that returns a `Result` instead of a status
    code: 400 is `Err(BadRequest)` and 404 is `Err(NotFound)`. */
module PlaylistServer {
  import opened Options
  import opened Text

  datatype MediaType = Image | Video | Unknown

  /** The record the server sends for one media file. */
  datatype MediaItem = MediaItem(id: string, name: string, url: string, mediaType: MediaType, filename: string)

  datatype Playlist = Playlist(id: string, name: string, items: seq<MediaItem>)

  /** What multer reports for one uploaded file. */
  datatype UploadedFile = UploadedFile(originalName: string, mimeType: string)

  datatype Status = BadRequest | NotFound

  datatype Result<T> = Ok(value: T) | Err(status: Status)

  datatype Location = Active | Inactive

  /** A playlist directory: file name to file content. */
  type Directory = map<string, string>

  // ------------------------------------------------------------ identifiers

  predicate IsAlphaNum(c: char) {
    'a' <= c <= 'z' || 'A' <= c <= 'Z' || '0' <= c <= '9'
  }

  predicate IsIdChar(c: char) {
    IsAlphaNum(c) || c == '_'
  }

  /** How many UTF-16 code units a JavaScript string spends on a character:
      two (a surrogate pair) for one outside the Basic Multilingual Plane. */
  function Utf16Units(c: char): (n: nat)
    ensures 1 <= n <= 2
  {
    if c as int >= 0x1_0000 then 2 else 1
  }

  /** A string's JavaScript `length`. */
  function Utf16Length(s: string): (n: nat)
    ensures |s| <= n <= 2 * |s|
  {
    if s == [] then 0 else Utf16Units(s[0]) + Utf16Length(s[1..])
  }

  lemma {:induction false} Utf16LengthAppend(a: string, b: string)
    ensures Utf16Length(a + b) == Utf16Length(a) + Utf16Length(b)
    decreases |a|
  {
    if a == [] {
      assert a + b == b;
    } else {
      assert (a + b)[0] == a[0];
      assert (a + b)[1..] == a[1..] + b;
      Utf16LengthAppend(a[1..], b);
    }
  }

  /** Every character of `s` is one UTF-16 code unit. */
  predicate InBmp(s: string) {
    forall i :: 0 <= i < |s| ==> s[i] as int < 0x1_0000
  }

  /** What the replacement does to one character. Without the `u` flag the
      regular expression matches code units, so a character outside the
      Basic Multilingual Plane is two matches and turns into two `_`. */
  function SanitizeChar(c: char): (r: string)
    ensures |r| == Utf16Units(c)
    ensures IsAlphaNum(c) ==> r == [c]
    ensures !IsAlphaNum(c) ==> forall i :: 0 <= i < |r| ==> r[i] == '_'
  {
    if IsAlphaNum(c) then [c] else if c as int >= 0x1_0000 then "__" else "_"
  }

  /** `name.replace(/[^a-z0-9]/gi, '_')`: the playlist id made from a name.
      Its length is the name's JavaScript length, and it holds only
      `[A-Za-z0-9_]`. */
  function SanitizeId(name: string): (id: string)
    ensures |id| == Utf16Length(name)
    ensures forall i :: 0 <= i < |id| ==> IsIdChar(id[i])
  {
    if name == [] then [] else SanitizeChar(name[0]) + SanitizeId(name[1..])
  }

  /** The replacement works character by character. */
  lemma {:induction false} SanitizeIdAppend(a: string, b: string)
    ensures SanitizeId(a + b) == SanitizeId(a) + SanitizeId(b)
    decreases |a|
  {
    if a == [] {
      assert a + b == b;
    } else {
      assert (a + b)[0] == a[0];
      assert (a + b)[1..] == a[1..] + b;
      SanitizeIdAppend(a[1..], b);
    }
  }

  /** Character `i` of the name becomes the code units of the id that start
      at the JavaScript length of the part before it. */
  lemma SanitizeIdAt(name: string, i: nat)
    requires i < |name|
    ensures var u := Utf16Length(name[..i]);
      && u + Utf16Units(name[i]) <= |SanitizeId(name)|
      && SanitizeId(name)[u..u + Utf16Units(name[i])] == SanitizeChar(name[i])
  {
    var before, after := name[..i], name[i..];
    assert name == before + after;
    SanitizeIdAppend(before, after);
    SanitizeIdUnfold(after);
    assert after[0] == name[i];
    MiddleSlice(SanitizeId(name), SanitizeId(before), SanitizeChar(after[0]), SanitizeId(after[1..]));
  }

  lemma SanitizeIdUnfold(s: string)
    requires s != []
    ensures SanitizeId(s) == SanitizeChar(s[0]) + SanitizeId(s[1..])
  {
  }

  lemma MiddleSlice(whole: string, p: string, q: string, r: string)
    requires whole == p + (q + r)
    ensures |p| + |q| <= |whole| && whole[|p|..|p| + |q|] == q
  {
    assert whole[|p|..|p| + |q|] == (q + r)[..|q|];
  }

  /** For a name of one-unit characters the id keeps every letter and digit
      in place and has `_` everywhere else. */
  lemma {:induction false} SanitizeIdBmp(name: string)
    requires InBmp(name)
    ensures |SanitizeId(name)| == |name|
    ensures forall i :: 0 <= i < |name| ==>
      SanitizeId(name)[i] == (if IsAlphaNum(name[i]) then name[i] else '_')
    decreases |name|
  {
    if name != [] {
      SanitizeIdBmp(name[1..]);
      var id := SanitizeId(name);
      assert id == SanitizeChar(name[0]) + SanitizeId(name[1..]);
      forall i | 1 <= i < |name| ensures id[i] == (if IsAlphaNum(name[i]) then name[i] else '_') {
        assert id[i] == SanitizeId(name[1..])[i - 1];
        assert name[1..][i - 1] == name[i];
      }
    }
  }

  /** An emoji, one character outside the Basic Multilingual Plane, becomes
      two underscores. */
  lemma SanitizeAstral(c: char)
    requires c as int >= 0x1_0000
    ensures SanitizeId([c]) == "__"
  {
    assert [c][1..] == [];
  }

  /** An id is its own sanitised form. */
  lemma {:induction false} SanitizeIdOfId(id: string)
    requires forall i :: 0 <= i < |id| ==> IsIdChar(id[i])
    ensures SanitizeId(id) == id
    decreases |id|
  {
    if id != [] {
      SanitizeIdOfId(id[1..]);
      assert SanitizeChar(id[0]) == [id[0]];
      assert id == [id[0]] + id[1..];
    }
  }

  lemma SanitizeIdIdempotent(name: string)
    ensures SanitizeId(SanitizeId(name)) == SanitizeId(name)
  {
    SanitizeIdOfId(SanitizeId(name));
  }

  /** `id.replace(/_/g, ' ')`: the display name rebuilt from an id. */
  function DisplayName(id: string): (name: string)
    ensures |name| == |id|
    ensures forall i :: 0 <= i < |id| ==> name[i] == (if id[i] == '_' then ' ' else id[i])
  {
    if id == [] then []
    else [if id[0] == '_' then ' ' else id[0]] + DisplayName(id[1..])
  }

  /** After a round trip through the disk a name keeps its letters and digits
      and every other code unit reads as a space; a name of one-unit
      characters keeps its length and each letter and digit in place. */
  lemma DisplayNameOfSanitizedId(name: string)
    ensures |DisplayName(SanitizeId(name))| == Utf16Length(name)
    ensures forall i :: 0 <= i < Utf16Length(name) ==>
      IsAlphaNum(DisplayName(SanitizeId(name))[i]) || DisplayName(SanitizeId(name))[i] == ' '
    ensures InBmp(name) ==> forall i :: 0 <= i < |name| ==>
      DisplayName(SanitizeId(name))[i] == (if IsAlphaNum(name[i]) then name[i] else ' ')
  {
    if InBmp(name) {
      SanitizeIdBmp(name);
    }
  }

  /** The playlist file that holds playlist `id`. */
  function FileName(id: string): string {
    id + ".txt"
  }

  predicate IsPlaylistFile(file: string) {
    EndsWith(file, ".txt")
  }

  /** `path.basename(file, '.txt')` for a bare file name ending in ".txt". */
  function BaseName(file: string): (id: string)
    requires IsPlaylistFile(file)
    ensures FileName(id) == file
  {
    assert file == file[..|file| - 4] + file[|file| - 4..];
    file[..|file| - 4]
  }

  // ------------------------------------------------------ playlist file format

  /** `filenames.join('\n')`: what a playlist file holds. */
  function Serialize(filenames: seq<string>): (text: string)
    ensures filenames != [] && (forall k :: 0 <= k < |filenames| ==> '\n' !in filenames[k]) ==>
      Split(text, '\n') == filenames
  {
    var text := Join(filenames, '\n');
    if filenames != [] && forall k :: 0 <= k < |filenames| ==> '\n' !in filenames[k] then
      SplitJoin(filenames, '\n');
      text
    else text
  }

  /** `.filter(line => line.trim() !== '')`. */
  function KeepNonBlank(lines: seq<string>): (kept: seq<string>)
    ensures |kept| <= |lines|
  {
    if lines == [] then []
    else (if IsBlank(lines[0]) then [] else [lines[0]]) + KeepNonBlank(lines[1..])
  }

  lemma {:induction false} KeepNonBlankAppend(a: seq<string>, b: seq<string>)
    ensures KeepNonBlank(a + b) == KeepNonBlank(a) + KeepNonBlank(b)
    decreases |a|
  {
    if a == [] {
      assert a + b == b;
    } else {
      var head := if IsBlank(a[0]) then [] else [a[0]];
      assert (a + b)[0] == a[0];
      assert (a + b)[1..] == a[1..] + b;
      assert KeepNonBlank(a + b) == head + KeepNonBlank(a[1..] + b);
      KeepNonBlankAppend(a[1..], b);
      assert KeepNonBlank(a) == head + KeepNonBlank(a[1..]);
    }
  }

  /** One line of a playlist file as a parse yields it. */
  predicate IsLine(s: string) {
    '\n' !in s && !IsBlank(s)
  }

  predicate StartsClean(s: string) {
    s != [] && !IsWhitespace(s[0])
  }

  predicate EndsClean(s: string) {
    s != [] && !IsWhitespace(s[|s| - 1])
  }

  /** Lines that a parse produces: none blank, none holding a line break, the
      first not starting and the last not ending with whitespace. */
  predicate WellFormedLines(lines: seq<string>) {
    && (forall k :: 0 <= k < |lines| ==> IsLine(lines[k]))
    && (lines != [] ==> StartsClean(lines[0]) && EndsClean(lines[|lines| - 1]))
  }

  /** Filtering pieces free of line breaks leaves lines. */
  lemma {:induction false} KeepNonBlankLines(lines: seq<string>)
    requires forall k :: 0 <= k < |lines| ==> '\n' !in lines[k]
    ensures forall k :: 0 <= k < |KeepNonBlank(lines)| ==> IsLine(KeepNonBlank(lines)[k])
    decreases |lines|
  {
    if lines != [] {
      KeepNonBlankLines(lines[1..]);
    }
  }

  /** A string holding a character that is not whitespace is not blank. */
  lemma NotBlank(s: string, i: nat)
    requires i < |s| && !IsWhitespace(s[i])
    ensures !IsBlank(s)
  {
    BlankIffAllWhitespace(s);
  }

  /** The pieces of a trimmed text, blank ones dropped, are well formed. */
  lemma TrimmedLinesWellFormed(t: string)
    requires t == [] || (StartsClean(t) && EndsClean(t))
    ensures WellFormedLines(KeepNonBlank(Split(t, '\n')))
  {
    var ps := Split(t, '\n');
    KeepNonBlankLines(ps);
    if t == [] {
      assert ps == [[]];
    } else {
      var n := |ps|;
      SplitEnds(t, '\n');
      NotBlank(ps[0], 0);
      assert ps == [ps[0]] + ps[1..];
      assert KeepNonBlank(ps)[0] == ps[0];
      NotBlank(ps[n - 1], |ps[n - 1]| - 1);
      assert ps == ps[..n - 1] + [ps[n - 1]];
      KeepNonBlankAppend(ps[..n - 1], [ps[n - 1]]);
      assert KeepNonBlank([ps[n - 1]]) == [ps[n - 1]];
    }
  }

  /** `content.trim().split('\n').filter(line => line.trim() !== '')`: the file
      names a playlist file lists. A blank file lists none. */
  function Parse(content: string): (filenames: seq<string>)
    ensures WellFormedLines(filenames)
    ensures IsBlank(content) ==> filenames == []
  {
    var t := Trim(content);
    TrimmedLinesWellFormed(t);
    BlankIffTrimEmpty(content);
    assert IsBlank(content) ==> Split(t, '\n') == [[]];
    KeepNonBlank(Split(t, '\n'))
  }

  /** A file name the playlist format stores faithfully: not empty, no line
      break, no whitespace at either end. */
  predicate IsStoredName(f: string) {
    '\n' !in f && StartsClean(f) && EndsClean(f)
  }

  lemma StoredNamesWellFormed(fs: seq<string>)
    requires forall k :: 0 <= k < |fs| ==> IsStoredName(fs[k])
    ensures WellFormedLines(fs)
  {
    forall k | 0 <= k < |fs| ensures IsLine(fs[k]) {
      NotBlank(fs[k], 0);
    }
  }

  lemma WellFormedConcat(a: seq<string>, b: seq<string>)
    requires WellFormedLines(a) && WellFormedLines(b)
    ensures WellFormedLines(a + b)
  {
    var c := a + b;
    forall k | 0 <= k < |c| ensures IsLine(c[k]) {
      if k >= |a| {
        assert c[k] == b[k - |a|];
      }
    }
  }

  lemma {:induction false} KeepAllNonBlank(lines: seq<string>)
    requires forall k :: 0 <= k < |lines| ==> !IsBlank(lines[k])
    ensures KeepNonBlank(lines) == lines
    decreases |lines|
  {
    if lines != [] {
      KeepAllNonBlank(lines[1..]);
      assert lines == [lines[0]] + lines[1..];
    }
  }

  /** Reading back what was written gives the same file names. */
  lemma ParseSerialize(filenames: seq<string>)
    requires WellFormedLines(filenames)
    ensures Parse(Serialize(filenames)) == filenames
  {
    var text := Serialize(filenames);
    if filenames == [] {
      assert Split(Trim(text), '\n') == [[]];
    } else {
      JoinEnds(filenames, '\n');
      assert Trim(text) == text;
      SplitJoin(filenames, '\n');
      KeepAllNonBlank(filenames);
    }
  }

  /** Parsing is a normal form: writing a parsed list back changes nothing. */
  lemma ParseIdempotent(content: string)
    ensures Parse(Serialize(Parse(content))) == Parse(content)
  {
    ParseSerialize(Parse(content));
  }

  /** The file addMedia writes reads back as the old names followed by the
      new ones, in the order submitted. */
  lemma AppendPersists(content: string, added: seq<string>)
    requires forall k :: 0 <= k < |added| ==> IsStoredName(added[k])
    ensures Parse(Serialize(Parse(content) + added)) == Parse(content) + added
  {
    StoredNamesWellFormed(added);
    WellFormedConcat(Parse(content), added);
    ParseSerialize(Parse(content) + added);
  }

  // ------------------------------------------------------------ media types

  const LIST_IMAGE_EXTENSIONS: set<string> := {".jpg", ".jpeg", ".png", ".tiff", ".webp", ".bmp"}
  const LIST_VIDEO_EXTENSIONS: set<string> := {".mp4", ".webm", ".ogg", ".mov", ".avi", ".mpg", ".wmv"}
  const ADD_IMAGE_EXTENSIONS: set<string> := {".jpg", ".jpeg", ".png", ".gif", ".webp", ".bmp"}
  const ADD_VIDEO_EXTENSIONS: set<string> := {".mp4", ".webm", ".ogg", ".mov", ".avi"}

  /** The type an extension gets from a pair of extension sets. */
  function TypeOfExtension(ext: string, images: set<string>, videos: set<string>): MediaType {
    if ext in images then Image else if ext in videos then Video else Unknown
  }

  /** Neither handler puts an extension in both of its sets. */
  lemma ExtensionSetsDisjoint()
    ensures LIST_IMAGE_EXTENSIONS !! LIST_VIDEO_EXTENSIONS
    ensures ADD_IMAGE_EXTENSIONS !! ADD_VIDEO_EXTENSIONS
  {
  }

  function TypeByExtension(filename: string, images: set<string>, videos: set<string>): MediaType {
    TypeOfExtension(ToLower(Extension(filename)), images, videos)
  }

  /** The type the list handler gives a file: image or video by its
      lower-cased extension, unknown when the extension is in neither set. */
  function ListedType(filename: string): (t: MediaType)
    ensures var ext := ToLower(Extension(filename));
      && (t == Image <==> ext in LIST_IMAGE_EXTENSIONS)
      && (t == Video <==> ext in LIST_VIDEO_EXTENSIONS)
      && (t == Unknown <==> ext !in LIST_IMAGE_EXTENSIONS + LIST_VIDEO_EXTENSIONS)
  {
    ExtensionSetsDisjoint();
    TypeByExtension(filename, LIST_IMAGE_EXTENSIONS, LIST_VIDEO_EXTENSIONS)
  }

  /** The type the add-media handler gives a file, likewise from its own
      extension sets. */
  function AddedType(filename: string): (t: MediaType)
    ensures var ext := ToLower(Extension(filename));
      && (t == Image <==> ext in ADD_IMAGE_EXTENSIONS)
      && (t == Video <==> ext in ADD_VIDEO_EXTENSIONS)
      && (t == Unknown <==> ext !in ADD_IMAGE_EXTENSIONS + ADD_VIDEO_EXTENSIONS)
  {
    ExtensionSetsDisjoint();
    TypeByExtension(filename, ADD_IMAGE_EXTENSIONS, ADD_VIDEO_EXTENSIONS)
  }

  lemma ExtensionSetsDisagreement(ext: string)
    ensures TypeOfExtension(ext, LIST_IMAGE_EXTENSIONS, LIST_VIDEO_EXTENSIONS)
         != TypeOfExtension(ext, ADD_IMAGE_EXTENSIONS, ADD_VIDEO_EXTENSIONS)
        <==> ext in {".tiff", ".gif", ".mpg", ".wmv"}
  {
  }

  /** The two extension classifiers disagree on exactly four extensions. */
  lemma ClassifiersDisagreement(filename: string)
    ensures ListedType(filename) != AddedType(filename)
        <==> ToLower(Extension(filename)) in {".tiff", ".gif", ".mpg", ".wmv"}
  {
    ExtensionSetsDisagreement(ToLower(Extension(filename)));
  }

  /** The type the upload handler gives a file, from its MIME type alone:
      never unknown. */
  function UploadType(mimeType: string): (t: MediaType)
    ensures t != Unknown
    ensures t == Image <==> StartsWith(mimeType, "image/")
  {
    if StartsWith(mimeType, "image/") then Image else Video
  }

  /** Both classifiers type a name with a lower-case extension by that
      extension. */
  lemma NamedExtensionTypes(stem: string, ext: string)
    requires stem != [] && ext != [] && ext[0] == '.' && '.' !in ext[1..]
    requires forall i :: 0 <= i < |ext| ==> !('A' <= ext[i] <= 'Z')
    ensures ListedType(stem + ext) == TypeOfExtension(ext, LIST_IMAGE_EXTENSIONS, LIST_VIDEO_EXTENSIONS)
    ensures AddedType(stem + ext) == TypeOfExtension(ext, ADD_IMAGE_EXTENSIONS, ADD_VIDEO_EXTENSIONS)
  {
    ExtensionOf(stem, ext);
    ToLowerOfLower(ext);
  }

  /** A name is in no set whose members all differ from it at position `j`. */
  lemma NotInByChar(x: string, names: set<string>, j: nat)
    requires j < |x|
    requires forall e :: e in names ==> j < |e| && e[j] != x[j]
    ensures x !in names
  {
  }

  lemma GifNotListed()
    ensures ".gif" !in LIST_IMAGE_EXTENSIONS && ".gif" !in LIST_VIDEO_EXTENSIONS
  {
    NotInByChar(".gif", LIST_IMAGE_EXTENSIONS, 1);
    NotInByChar(".gif", LIST_VIDEO_EXTENSIONS, 1);
  }

  lemma MkvNotListed()
    ensures ".mkv" !in LIST_IMAGE_EXTENSIONS && ".mkv" !in LIST_VIDEO_EXTENSIONS
  {
    NotInByChar(".mkv", LIST_IMAGE_EXTENSIONS, 2);
    NotInByChar(".mkv", LIST_VIDEO_EXTENSIONS, 2);
  }

  /** A GIF upload is recorded as an image, and the same file is listed as
      unknown. */
  lemma GifUploadListedUnknown(f: UploadedFile)
    requires |f.originalName| > 4 && EndsWith(f.originalName, ".gif") && StartsWith(f.mimeType, "image/")
    ensures UploadRecord(f).mediaType == Image && ListedItem(f.originalName).mediaType == Unknown
  {
    var stem := f.originalName[..|f.originalName| - 4];
    assert f.originalName == stem + ".gif";
    NamedExtensionTypes(stem, ".gif");
    GifNotListed();
  }

  /** A Matroska upload is recorded as a video, and the same file is listed
      as unknown. */
  lemma MkvUploadListedUnknown(f: UploadedFile)
    requires |f.originalName| > 4 && EndsWith(f.originalName, ".mkv") && StartsWith(f.mimeType, "video/")
    ensures UploadRecord(f).mediaType == Video && ListedItem(f.originalName).mediaType == Unknown
  {
    var stem := f.originalName[..|f.originalName| - 4];
    assert f.originalName == stem + ".mkv";
    assert f.mimeType[0] != "image/"[0];
    NamedExtensionTypes(stem, ".mkv");
    MkvNotListed();
  }

  // ------------------------------------------------------------- media items

  function UploadUrl(filename: string): string {
    "/uploads/" + filename
  }

  /** The item the list handler builds for a file name (lines 84-90). */
  function ListedItem(filename: string): (item: MediaItem)
    ensures item.id == item.name == item.filename == filename
    ensures item.url == "/uploads/" + filename
    ensures item.mediaType == ListedType(filename)
  {
    MediaItem(filename, filename, UploadUrl(filename), ListedType(filename), filename)
  }

  /** The item the add-media handler builds for a file name (lines 258-264). */
  function AddedItem(filename: string): (item: MediaItem)
    ensures item.(mediaType := ListedType(filename)) == ListedItem(filename)
    ensures item.mediaType == AddedType(filename)
  {
    MediaItem(filename, filename, UploadUrl(filename), AddedType(filename), filename)
  }

  /** `items.map(item => item.filename)`. */
  function Filenames(items: seq<MediaItem>): (names: seq<string>)
    ensures |names| == |items|
    ensures forall k :: 0 <= k < |items| ==> names[k] == items[k].filename
  {
    if items == [] then [] else [items[0].filename] + Filenames(items[1..])
  }

  /** The items a listed playlist shows: file names that are non-empty and
      present in the upload directory, in file order. */
  function ListedItems(filenames: seq<string>, uploads: set<string>): (items: seq<MediaItem>)
    ensures |items| <= |filenames|
    ensures forall k :: 0 <= k < |items| ==>
      items[k].filename in uploads && items[k].filename in filenames && items[k] == ListedItem(items[k].filename)
  {
    if filenames == [] then []
    else
      var f := filenames[0];
      (if f != [] && f in uploads then [ListedItem(f)] else []) + ListedItems(filenames[1..], uploads)
  }

  /** The record list one file line contributes. */
  function ListedHead(f: string, uploads: set<string>): seq<MediaItem> {
    if f != [] && f in uploads then [ListedItem(f)] else []
  }

  lemma ListedItemsUnfold(filenames: seq<string>, uploads: set<string>)
    requires filenames != []
    ensures ListedItems(filenames, uploads)
         == ListedHead(filenames[0], uploads) + ListedItems(filenames[1..], uploads)
  {
  }

  lemma {:induction false} ListedItemsAppend(a: seq<string>, b: seq<string>, uploads: set<string>)
    ensures ListedItems(a + b, uploads) == ListedItems(a, uploads) + ListedItems(b, uploads)
    decreases |a|, 1
  {
    if a == [] {
      assert a + b == b;
    } else {
      ListedItemsAppendCons(a, b, uploads);
    }
  }

  lemma {:induction false} ListedItemsAppendCons(a: seq<string>, b: seq<string>, uploads: set<string>)
    requires a != []
    ensures ListedItems(a + b, uploads) == ListedItems(a, uploads) + ListedItems(b, uploads)
    decreases |a|, 0
  {
    ListedItemsUnfoldAppend(a, b, uploads);
    ListedItemsUnfold(a, uploads);
    ListedItemsAppend(a[1..], b, uploads);
    ConsAppend(ListedItems(a + b, uploads), ListedItems(a, uploads), ListedHead(a[0], uploads),
      ListedItems(a[1..] + b, uploads), ListedItems(a[1..], uploads), ListedItems(b, uploads));
  }

  lemma ListedItemsUnfoldAppend(a: seq<string>, b: seq<string>, uploads: set<string>)
    requires a != []
    ensures ListedItems(a + b, uploads) == ListedHead(a[0], uploads) + ListedItems(a[1..] + b, uploads)
  {
    ListedItemsUnfold(a + b, uploads);
    assert (a + b)[0] == a[0];
    assert (a + b)[1..] == a[1..] + b;
  }

  lemma ConsAppend(whole: seq<MediaItem>, front: seq<MediaItem>, head: seq<MediaItem>,
                   rest: seq<MediaItem>, frontRest: seq<MediaItem>, back: seq<MediaItem>)
    requires whole == head + rest && front == head + frontRest && rest == frontRest + back
    ensures whole == front + back
  {
  }

  /** A file name shows up in a listed playlist if and only if the file
      lists it, it is non-empty, and the upload directory holds it. */
  lemma {:induction false} ListedItemsMembership(filenames: seq<string>, uploads: set<string>, f: string)
    ensures ListedItem(f) in ListedItems(filenames, uploads) <==> f in filenames && f != [] && f in uploads
    decreases |filenames|
  {
    if filenames != [] {
      ListedItemsMembership(filenames[1..], uploads, f);
      var g := filenames[0];
      assert filenames == [g] + filenames[1..];
      if ListedItem(f) == ListedItem(g) {
        assert f == ListedItem(f).filename;
      }
    }
  }

  /** The items the add-media handler returns: every file name, unfiltered. */
  function AddedItems(filenames: seq<string>): (items: seq<MediaItem>)
    ensures Filenames(items) == filenames
    ensures |items| == |filenames| && forall k :: 0 <= k < |items| ==> items[k] == AddedItem(filenames[k])
    ensures forall k :: 0 <= k < |items| ==> items[k].mediaType == AddedType(filenames[k])
  {
    if filenames == [] then []
    else
      assert Filenames([AddedItem(filenames[0])] + AddedItems(filenames[1..]))
          == [filenames[0]] + Filenames(AddedItems(filenames[1..]));
      [AddedItem(filenames[0])] + AddedItems(filenames[1..])
  }

  /** The record the upload handler returns for one stored file; multer keeps
      the original name, so the stored name is the original name. */
  function UploadRecord(file: UploadedFile): (item: MediaItem)
    ensures item.(mediaType := AddedType(file.originalName)) == AddedItem(file.originalName)
    ensures item.mediaType == UploadType(file.mimeType)
  {
    MediaItem(file.originalName, file.originalName, UploadUrl(file.originalName), UploadType(file.mimeType), file.originalName)
  }

  /** The upload response: one record per file, in upload order. */
  function UploadRecords(files: seq<UploadedFile>): (records: seq<MediaItem>)
    ensures |records| == |files|
    ensures forall k :: 0 <= k < |files| ==> records[k] == UploadRecord(files[k])
    ensures forall k :: 0 <= k < |files| ==>
      records[k].filename == files[k].originalName && records[k].mediaType != Unknown
      && (records[k].mediaType == Image <==> StartsWith(files[k].mimeType, "image/"))
  {
    if files == [] then [] else [UploadRecord(files[0])] + UploadRecords(files[1..])
  }

  // ------------------------------------------------------------- listing

  /** The content a listed file is read from: the active copy first. */
  function ReadActiveFirst(active: Directory, inactive: Directory, file: string): string
    requires file in active || file in inactive
  {
    if file in active then active[file] else inactive[file]
  }

  /** The playlist the list handler builds for one `.txt` file (lines 54-97):
      the id is the file's base name, the name is that id with spaces for
      underscores, and the items are the uploaded files that the content
      lists, the active copy being read when there is one. */
  function ListedPlaylist(active: Directory, inactive: Directory, uploads: set<string>, file: string): (p: Playlist)
    requires IsPlaylistFile(file) && (file in active || file in inactive)
    ensures FileName(p.id) == file && p.name == DisplayName(p.id)
    ensures file in active ==> p.items == ListedItems(Parse(active[file]), uploads)
    ensures file !in active ==> p.items == ListedItems(Parse(inactive[file]), uploads)
    ensures forall k :: 0 <= k < |p.items| ==> p.items[k].filename in uploads
  {
    var id := BaseName(file);
    Playlist(id, DisplayName(id), ListedItems(Parse(ReadActiveFirst(active, inactive, file)), uploads))
  }

  /** The `.txt` names of a directory listing, in listing order. */
  function PlaylistFiles(files: seq<string>): (txt: seq<string>)
    ensures |txt| <= |files|
    ensures forall k :: 0 <= k < |txt| ==> IsPlaylistFile(txt[k])
  {
    if files == [] then []
    else (if IsPlaylistFile(files[0]) then [files[0]] else []) + PlaylistFiles(files[1..])
  }

  /** Every listed name comes from the listing. */
  lemma {:induction false} PlaylistFilesFromListing(files: seq<string>)
    ensures forall k :: 0 <= k < |PlaylistFiles(files)| ==> PlaylistFiles(files)[k] in files
    decreases |files|
  {
    if files != [] {
      PlaylistFilesFromListing(files[1..]);
      var head := if IsPlaylistFile(files[0]) then [files[0]] else [];
      assert PlaylistFiles(files) == head + PlaylistFiles(files[1..]);
      assert forall g :: g in files[1..] ==> g in files;
    }
  }

  lemma {:induction false} PlaylistFilesAppend(a: seq<string>, b: seq<string>)
    ensures PlaylistFiles(a + b) == PlaylistFiles(a) + PlaylistFiles(b)
    decreases |a|
  {
    if a == [] {
      assert a + b == b;
    } else {
      var head := if IsPlaylistFile(a[0]) then [a[0]] else [];
      assert (a + b)[0] == a[0];
      assert (a + b)[1..] == a[1..] + b;
      assert PlaylistFiles(a + b) == head + PlaylistFiles(a[1..] + b);
      PlaylistFilesAppend(a[1..], b);
    }
  }

  /** A name is listed exactly when it is in the listing and ends in ".txt". */
  lemma {:induction false} PlaylistFilesMembership(files: seq<string>, f: string)
    ensures f in PlaylistFiles(files) <==> f in files && IsPlaylistFile(f)
    decreases |files|
  {
    if files != [] {
      PlaylistFilesMembership(files[1..], f);
      assert files == [files[0]] + files[1..];
    }
  }

  /** Keeping the `.txt` names keeps a listing free of repeats. */
  lemma {:induction false} PlaylistFilesDistinct(files: seq<string>)
    requires Distinct(files)
    ensures Distinct(PlaylistFiles(files))
    decreases |files|
  {
    if files != [] {
      var head := if IsPlaylistFile(files[0]) then [files[0]] else [];
      var rest := PlaylistFiles(files[1..]);
      assert Distinct(files[1..]) by {
        forall i, j | 0 <= i < j < |files[1..]| ensures files[1..][i] != files[1..][j] {
          assert files[1..][i] == files[i + 1] && files[1..][j] == files[j + 1];
        }
      }
      PlaylistFilesDistinct(files[1..]);
      forall x | x in head ensures x !in rest {
        assert forall j :: 0 <= j < |files[1..]| ==> files[1..][j] == files[j + 1] != files[0];
        assert x !in files[1..];
        PlaylistFilesMembership(files[1..], x);
      }
      DistinctConcat(head, rest);
      assert PlaylistFiles(files) == head + rest;
    }
  }

  /** The `.txt` names the list handler walks (lines 49-53): those of the
      active listing, then those of the inactive listing. */
  function ListedFiles(activeListing: seq<string>, inactiveListing: seq<string>): seq<string> {
    PlaylistFiles(activeListing + inactiveListing)
  }

  /** GET /api/playlists: each `.txt` name of the active listing and then of
      the inactive listing, mapped to the playlist built from its file. The
      listings hold exactly the names of the two directories; their order is
      the platform's. */
  function ListPlaylists(active: Directory, inactive: Directory, uploads: set<string>,
                         activeListing: seq<string>, inactiveListing: seq<string>): (r: seq<Playlist>)
    requires Lists(activeListing, active.Keys) && Lists(inactiveListing, inactive.Keys)
    ensures |r| == |ListedFiles(activeListing, inactiveListing)|
    ensures forall k :: 0 <= k < |r| ==>
      var f := ListedFiles(activeListing, inactiveListing)[k];
      (f in active || f in inactive) && r[k] == ListedPlaylist(active, inactive, uploads, f)
  {
    var files := activeListing + inactiveListing;
    var txt := PlaylistFiles(files);
    PlaylistFilesFromListing(files);
    assert forall k :: 0 <= k < |txt| ==> txt[k] in active || txt[k] in inactive;
    seq(|txt|, k requires 0 <= k < |txt| && (txt[k] in active || txt[k] in inactive) =>
      ListedPlaylist(active, inactive, uploads, txt[k]))
  }

  /** Where a `.txt` name of the listing sits among the listed names. */
  lemma {:induction false} PlaylistFilesPosition(files: seq<string>, f: string) returns (i: nat)
    requires IsPlaylistFile(f) && f in files
    ensures i < |PlaylistFiles(files)| && PlaylistFiles(files)[i] == f
    decreases |files|
  {
    var head := if IsPlaylistFile(files[0]) then [files[0]] else [];
    assert PlaylistFiles(files) == head + PlaylistFiles(files[1..]);
    if files[0] == f {
      i := 0;
    } else {
      var k := PlaylistFilesPosition(files[1..], f);
      i := |head| + k;
    }
  }

  /** Every stored playlist file is listed, as the playlist built from it. */
  lemma StoredPlaylistListed(active: Directory, inactive: Directory, uploads: set<string>,
                             activeListing: seq<string>, inactiveListing: seq<string>, f: string) returns (k: nat)
    requires Lists(activeListing, active.Keys) && Lists(inactiveListing, inactive.Keys)
    requires IsPlaylistFile(f) && (f in active || f in inactive)
    ensures var r := ListPlaylists(active, inactive, uploads, activeListing, inactiveListing);
      k < |r| && r[k] == ListedPlaylist(active, inactive, uploads, f)
  {
    assert f in activeListing + inactiveListing;
    k := PlaylistFilesPosition(activeListing + inactiveListing, f);
  }

  /** No listed playlist has an id whose file is in neither directory, so
      nothing deleted stays listed. */
  lemma AbsentNotListed(active: Directory, inactive: Directory, uploads: set<string>,
                        activeListing: seq<string>, inactiveListing: seq<string>, id: string)
    requires Lists(activeListing, active.Keys) && Lists(inactiveListing, inactive.Keys)
    requires FileName(id) !in active && FileName(id) !in inactive
    ensures var r := ListPlaylists(active, inactive, uploads, activeListing, inactiveListing);
      forall k :: 0 <= k < |r| ==> r[k].id != id
  {
    var r := ListPlaylists(active, inactive, uploads, activeListing, inactiveListing);
    forall k | 0 <= k < |r| ensures r[k].id != id {
      var f := ListedFiles(activeListing, inactiveListing)[k];
      assert FileName(r[k].id) == f;
    }
  }

  /** A file that sits in both directories is listed twice, both times as the
      playlist read from the active copy. */
  lemma ListedTwiceWhenInBoth(active: Directory, inactive: Directory, uploads: set<string>,
                              activeListing: seq<string>, inactiveListing: seq<string>, f: string)
    returns (i: nat, j: nat)
    requires Lists(activeListing, active.Keys) && Lists(inactiveListing, inactive.Keys)
    requires IsPlaylistFile(f) && f in active && f in inactive
    ensures var r := ListPlaylists(active, inactive, uploads, activeListing, inactiveListing);
      && i < j < |r|
      && r[i] == r[j] == ListedPlaylist(active, inactive, uploads, f)
      && r[i].items == ListedItems(Parse(active[f]), uploads)
  {
    PlaylistFilesAppend(activeListing, inactiveListing);
    assert f in activeListing && f in inactiveListing;
    var a := PlaylistFilesPosition(activeListing, f);
    var b := PlaylistFilesPosition(inactiveListing, f);
    var ta := PlaylistFiles(activeListing);
    var txt := ta + PlaylistFiles(inactiveListing);
    i, j := a, |ta| + b;
    assert txt[i] == f && txt[j] == f;
  }

  /** After create, with one file per id before it and no active file of the
      new id, the next listing holds the new playlist exactly once: with the
      sanitised id, the name rebuilt from it, and no items. */
  lemma CreatedPlaylistListed(active: Directory, inactive: Directory, uploads: set<string>,
                              activeListing: seq<string>, inactiveListing: seq<string>, name: string)
    returns (k: nat)
    requires active.Keys !! inactive.Keys && FileName(SanitizeId(name)) !in active
    requires Lists(activeListing, active.Keys)
    requires Lists(inactiveListing, inactive[FileName(SanitizeId(name)) := ""].Keys)
    requires Distinct(activeListing) && Distinct(inactiveListing)
    ensures var id := SanitizeId(name);
      var r := ListPlaylists(active, inactive[FileName(id) := ""], uploads, activeListing, inactiveListing);
      && k < |r| && r[k] == Playlist(id, DisplayName(id), [])
      && forall j :: 0 <= j < |r| && r[j].id == id ==> j == k
  {
    var id := SanitizeId(name);
    var file := FileName(id);
    var inactive' := inactive[file := ""];
    var r := ListPlaylists(active, inactive', uploads, activeListing, inactiveListing);
    var txt := ListedFiles(activeListing, inactiveListing);
    assert IsPlaylistFile(file);
    assert IsBlank([]);
    k := StoredPlaylistListed(active, inactive', uploads, activeListing, inactiveListing, file);
    assert r[k] == Playlist(id, DisplayName(id), []);
    assert txt[k] == file;
    forall x | x in activeListing ensures x !in inactiveListing {
      assert x in active;
    }
    DistinctConcat(activeListing, inactiveListing);
    PlaylistFilesDistinct(activeListing + inactiveListing);
    forall j | 0 <= j < |r| && r[j].id == id ensures j == k {
      assert FileName(r[j].id) == txt[j];
    }
  }

  // ------------------------------------------------------------- the store

  /** The server's persistent state: the two playlist directories and the set
      of files in the upload directory. */
  class Store {
    var active: Directory
    var inactive: Directory
    var uploads: set<string>

    constructor (active: Directory, inactive: Directory, uploads: set<string>)
      ensures this.active == active && this.inactive == inactive && this.uploads == uploads
    {
      this.active, this.inactive, this.uploads := active, inactive, uploads;
    }

    /** Where the file of playlist `id` is found: the active directory first. */
    function Locate(id: string): (loc: Option<Location>)
      reads this
      ensures loc == Some(Active) <==> FileName(id) in active
      ensures loc == None <==> FileName(id) !in active && FileName(id) !in inactive
      ensures OneFilePerId() ==> (loc == Some(Inactive) <==> FileName(id) in inactive)
    {
      if FileName(id) in active then Some(Active)
      else if FileName(id) in inactive then Some(Inactive)
      else None
    }

    /** No playlist file sits in both directories. Create can break this (it
        writes into the inactive directory without looking at the active one);
        the other handlers keep it. */
    predicate OneFilePerId()
      reads this
    {
      active.Keys !! inactive.Keys
    }

    /** POST /api/playlists: a missing or empty name is refused; otherwise an
        empty file is written into the inactive directory (truncating any file
        of the same id there) and the playlist is returned under the name as
        given. The active directory is not consulted. */
    method Create(name: Option<string>) returns (r: Result<Playlist>)
      modifies this
      ensures uploads == old(uploads) && active == old(active)
      ensures name == None || name == Some([]) ==> r == Err(BadRequest) && inactive == old(inactive)
      ensures name.Some? && name.value != [] ==>
        && r == Ok(Playlist(SanitizeId(name.value), name.value, []))
        && inactive == old(inactive)[FileName(SanitizeId(name.value)) := ""]
        && (OneFilePerId() <==> old(OneFilePerId()) && FileName(SanitizeId(name.value)) !in active)
    {
      if name == None || name == Some([]) {
        return Err(BadRequest);
      }
      var id := SanitizeId(name.value);
      inactive := inactive[FileName(id) := ""];
      r := Ok(Playlist(id, name.value, []));
    }

    /** PUT /api/playlists/:id: rewrites the file found first with the items'
        file names, one per line, in the order given, and echoes the body. */
    method Update(id: string, body: Playlist) returns (r: Result<Playlist>)
      modifies this
      ensures uploads == old(uploads)
      ensures r == if old(Locate(id)) == None then Err(NotFound) else Ok(body)
      ensures old(Locate(id)) == Some(Active) ==>
        active == old(active)[FileName(id) := Serialize(Filenames(body.items))] && inactive == old(inactive)
      ensures old(Locate(id)) == Some(Inactive) ==>
        inactive == old(inactive)[FileName(id) := Serialize(Filenames(body.items))] && active == old(active)
      ensures old(Locate(id)) == None ==> active == old(active) && inactive == old(inactive)
      ensures old(OneFilePerId()) ==> OneFilePerId()
    {
      var file := FileName(id);
      var text := Serialize(Filenames(body.items));
      if file in active {
        active := active[file := text];
        r := Ok(body);
      } else if file in inactive {
        inactive := inactive[file := text];
        r := Ok(body);
      } else {
        r := Err(NotFound);
      }
    }

    /** DELETE /api/playlists/:id: removes the file found first (only the
        active copy when both exist). */
    method Delete(id: string) returns (r: Result<()>)
      modifies this
      ensures uploads == old(uploads)
      ensures r == if old(Locate(id)) == None then Err(NotFound) else Ok(())
      ensures old(Locate(id)) == Some(Active) ==>
        active == old(active) - {FileName(id)} && inactive == old(inactive)
      ensures old(Locate(id)) == Some(Inactive) ==>
        inactive == old(inactive) - {FileName(id)} && active == old(active)
      ensures old(Locate(id)) == None ==> active == old(active) && inactive == old(inactive)
      ensures old(OneFilePerId()) ==> OneFilePerId()
      ensures old(OneFilePerId()) ==> FileName(id) !in active && FileName(id) !in inactive
    {
      var file := FileName(id);
      if file in active {
        active := active - {file};
        r := Ok(());
      } else if file in inactive {
        inactive := inactive - {file};
        r := Ok(());
      } else {
        r := Err(NotFound);
      }
    }

    /** POST /api/playlists/:id/media: appends the items' file names to the
        file found first, without removing repeats, and returns the whole
        playlist, every name typed by extension and none checked for
        existence. */
    method AddMedia(id: string, mediaItems: seq<MediaItem>) returns (r: Result<Playlist>)
      modifies this
      ensures uploads == old(uploads)
      ensures old(Locate(id)) == None ==>
        r == Err(NotFound) && active == old(active) && inactive == old(inactive)
      ensures old(Locate(id)) == Some(Active) ==>
        var all := Parse(old(active)[FileName(id)]) + Filenames(mediaItems);
        && active == old(active)[FileName(id) := Serialize(all)] && inactive == old(inactive)
        && r == Ok(Playlist(id, DisplayName(id), AddedItems(all)))
      ensures old(Locate(id)) == Some(Inactive) ==>
        var all := Parse(old(inactive)[FileName(id)]) + Filenames(mediaItems);
        && inactive == old(inactive)[FileName(id) := Serialize(all)] && active == old(active)
        && r == Ok(Playlist(id, DisplayName(id), AddedItems(all)))
      ensures old(OneFilePerId()) ==> OneFilePerId()
    {
      var file := FileName(id);
      var location := Locate(id);
      if location == None {
        return Err(NotFound);
      }
      var existing := if location == Some(Active) then active[file] else inactive[file];
      var all := Parse(existing) + Filenames(mediaItems);
      if location == Some(Active) {
        active := active[file := Serialize(all)];
      } else {
        inactive := inactive[file := Serialize(all)];
      }
      r := Ok(Playlist(id, DisplayName(id), AddedItems(all)));
    }

    /** POST /api/upload: every file is stored under its original name
        (overwriting one of the same name) and described by a record. */
    method Upload(files: seq<UploadedFile>) returns (records: seq<MediaItem>)
      modifies this
      ensures uploads == old(uploads) + set k | 0 <= k < |files| :: files[k].originalName
      ensures active == old(active) && inactive == old(inactive)
      ensures records == UploadRecords(files)
    {
      uploads := uploads + set k | 0 <= k < |files| :: files[k].originalName;
      records := UploadRecords(files);
    }
  }
}
