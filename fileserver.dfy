/**
 * FileServer of gopher.go: the item type of a file by its extension, the names Dir.Open
 * refuses, serveFile's choice between an error, a document and a directory listing, and
 * dirList's menu. The file system is a parameter: what opening a name gives, what a
 * directory holds, a file's contents, filepath.Rel and the content sniffer are functions
 * the model does not look inside.
 */
module FileServer {
  import opened Wrappers
  import opened Text
  import opened Items
  import opened Directories
  import opened Server
  import opened Client
  import opened Exchange

  // ---------------------------------------------------------------------------
  // matchExtension

  /** The known extensions, lower-case with their dot, and the item type each names. */
  const FileExtensions: map<string, ItemType> := map[
    ".txt" := FileType, ".gif" := GifType, ".jpg" := ImageType, ".jpeg" := ImageType,
    ".png" := ImageType, ".html" := HtmlType, ".ogg" := AudioType, ".mp3" := AudioType,
    ".wav" := AudioType, ".mod" := AudioType, ".it" := AudioType, ".xm" := AudioType,
    ".mid" := AudioType, ".vgm" := AudioType, ".s" := FileType, ".c" := FileType,
    ".py" := FileType, ".h" := FileType, ".md" := FileType, ".go" := FileType,
    ".fs" := FileType]

  /** filepath.Ext with '/' as the separator: from the last '.' of the last element, or "". */
  function Ext(path: string): string
    decreases |path|
  {
    if |path| == 0 then ""
    else
      var c := path[|path| - 1];
      if c == '/' then ""
      else if c == '.' then "."
      else
        var e := Ext(path[..|path| - 1]);
        if e == "" then "" else e + [c]
  }

  /** The extension proper: a '.' followed by anything but '.' and '/'. */
  predicate IsExtension(e: string)
  {
    |e| > 0 && e[0] == '.' && forall k :: 0 < k < |e| ==> e[k] != '.' && e[k] != '/'
  }

  /**
   * A non-empty extension is a suffix that starts at a '.' and holds no other '.' or '/';
   * there is none exactly when no '.' follows the last '/'.
   */
  lemma {:induction false} ExtSpec(path: string)
    ensures var e := Ext(path);
      && |e| <= |path|
      && (e != "" ==> IsExtension(e) && path[|path| - |e|..] == e)
      && (e == "" <==> forall k :: 0 <= k < |path| && path[k] == '.' ==> exists j :: k < j < |path| && path[j] == '/')
    decreases |path|
  {
    if |path| > 0 {
      var init, c := path[..|path| - 1], path[|path| - 1];
      ExtSpec(init);
      var e := Ext(init);
      if c != '/' && c != '.' && e != "" {
        assert path[|path| - |e| - 1..] == e + [c];
      }
      if c != '/' && c != '.' && e == "" {
        forall k | 0 <= k < |path| && path[k] == '.'
          ensures exists j :: k < j < |path| && path[j] == '/'
        {
          assert init[k] == '.';
          var j :| k < j < |init| && init[j] == '/';
          assert path[j] == '/';
        }
      }
    }
  }

  /** matchExtension: the type of the lower-cased extension, or BINARY for any other. */
  function MatchExtension(name: string): ItemType
  {
    var x := ToLower(Ext(name));
    if x in FileExtensions then FileExtensions[x] else DefaultType
  }

  /** Lower-casing keeps '.' and '/' where they are. */
  lemma LowerKeepsSeparators(c: char)
    ensures (LowerChar(c) == '.') == (c == '.')
    ensures (LowerChar(c) == '/') == (c == '/')
    ensures LowerChar(LowerChar(c)) == LowerChar(c)
  {
  }

  lemma {:induction false} ExtOfLower(path: string)
    ensures Ext(ToLower(path)) == ToLower(Ext(path))
    decreases |path|
  {
    if |path| > 0 {
      var init, c := path[..|path| - 1], path[|path| - 1];
      assert ToLower(path)[..|path| - 1] == ToLower(init);
      LowerKeepsSeparators(c);
      ExtOfLower(init);
      var e := Ext(init);
      if e != "" {
        assert ToLower(e + [c]) == ToLower(e) + [LowerChar(c)];
      }
    }
  }

  /** The type does not depend on the case of the name. */
  lemma MatchExtensionIgnoresCase(name: string)
    ensures MatchExtension(ToLower(name)) == MatchExtension(name)
  {
    ExtOfLower(name);
    var e := Ext(name);
    forall k | 0 <= k < |e|
      ensures ToLower(ToLower(e))[k] == ToLower(e)[k]
    {
      LowerKeepsSeparators(e[k]);
    }
    assert ToLower(ToLower(e)) == ToLower(e);
  }

  /** Every type matchExtension gives is one of the table's or BINARY. */
  lemma MatchExtensionRange(name: string)
    ensures MatchExtension(name) in {FileType, GifType, ImageType, HtmlType, AudioType, BinaryType}
  {
  }

  /** A known extension gives its type. */
  lemma MatchTextFile()
    ensures MatchExtension("hello.txt") == FileType
  {
    assert Ext("hello.txt") == ".txt" by {
      assert "hello.txt"[..8] == "hello.tx" && "hello.tx"[..7] == "hello.t" && "hello.t"[..6] == "hello.";
    }
    assert ToLower(".txt") == ".txt";
  }

  /** Only the last extension counts. */
  lemma MatchLastExtension()
    ensures MatchExtension("archive.txt.gz") == BinaryType
  {
    assert Ext("archive.txt.gz") == ".gz" by {
      assert "archive.txt.gz"[..13] == "archive.txt.g" && "archive.txt.g"[..12] == "archive.txt.";
    }
    assert ToLower(".gz") == ".gz";
    assert ".gz" !in FileExtensions;
  }

  /** A '.' in a directory name is not an extension of the file. */
  lemma MatchDotInDirectory()
    ensures MatchExtension("v1.2/README") == BinaryType
  {
    var p := "v1.2/README";
    ExtSpec(p);
    assert p[4] == '/';
    forall k | 0 <= k < |p| && p[k] == '.'
      ensures exists j :: k < j < |p| && p[j] == '/'
    {
      assert k == 2;
      assert p[4] == '/';
    }
  }

  // ---------------------------------------------------------------------------
  // Dir.Open's name check

  const NUL: char := '\0'

  datatype OpenError = InvalidCharacter  // "gopher: invalid character in file path"

  /**
   * Dir.Open before it reaches the file system: a name holding the host's separator (when
   * that is not '/') or a NUL is refused; otherwise the file opened is the '/'-rooted name
   * under the directory, "." for an empty one. The name is returned as it is: the
   * path.Clean that Dir.Open applies to it is not part of this function.
   */
  function OpenPath(dir: string, name: string, separator: char): (r: Result<(string, string), OpenError>)
    ensures r.Failure? <==> (separator != '/' && separator in name) || NUL in name
    ensures r.Success? ==> r.value.0 != "" && (dir != "" ==> r.value.0 == dir) && (dir == "" ==> r.value.0 == ".")
    ensures r.Success? ==> HasPrefix(r.value.1, "/") && r.value.1 == "/" + name
  {
    if (separator != '/' && separator in name) || NUL in name then Failure(InvalidCharacter)
    else Success((if dir == "" then "." else dir, "/" + name))
  }

  /** On a '/' host any NUL-free name gets through, while a '\' host refuses names with a '\'. */
  lemma OpenPathBySeparator(dir: string, name: string)
    ensures NUL !in name ==> OpenPath(dir, name, '/').Success?
    ensures '\\' in name ==> OpenPath(dir, name, '\\').Failure?
    ensures NUL in name ==> OpenPath(dir, name, '/').Failure? && OpenPath(dir, name, '\\').Failure?
  {
  }

  // ---------------------------------------------------------------------------
  // serveFile

  /** What opening a name and taking its Stat gives: an error text, or a directory or a file. */
  datatype Lookup = Unavailable(err: string) | Found(isDir: bool)

  /** serveFile's decision: an error item, a document, or a listing of a directory. */
  datatype Served = Refused(msg: string) | Content(name: string) | Listing(name: string)

  const GophermapFile: string := "/gophermap"

  /** The gophermap file of a directory name: the name, less one trailing '/', then "/gophermap". */
  function GophermapOf(name: string): (r: string)
    ensures |r| >= |GophermapFile| && r[|r| - |GophermapFile|..] == GophermapFile
    ensures var d := r[..|r| - |GophermapFile|]; d == name || d + "/" == name
  {
    TrimSuffix(name, "/") + GophermapFile
  }

  /**
   * serveFile: an error item for a name that cannot be opened or stated; for a directory,
   * its gophermap when that can be opened and stated; then a listing for a directory and
   * the contents for anything else.
   */
  function ServeChoice(fs: string -> Lookup, name: string): Served
  {
    match fs(name)
    case Unavailable(e) => Refused(e)
    case Found(isDir) =>
      if !isDir then Content(name)
      else
        var gm := GophermapOf(name);
        match fs(gm)
        case Unavailable(_) => Listing(name)
        case Found(gmIsDir) => if gmIsDir then Listing(gm) else Content(gm)
  }

  /**
   * The choice in full: an error exactly for a name that is unavailable, with its text; a
   * document is a file, either the name itself or the gophermap of the directory it names;
   * a listing is of a directory, the name itself only when it has no gophermap.
   */
  lemma ServeChoiceSpec(fs: string -> Lookup, name: string)
    ensures ServeChoice(fs, name).Refused? <==> fs(name).Unavailable?
    ensures ServeChoice(fs, name).Refused? ==> ServeChoice(fs, name).msg == fs(name).err
    ensures ServeChoice(fs, name).Content? ==>
      var n := ServeChoice(fs, name).name;
      && fs(n) == Found(false)
      && (n == name || (n == GophermapOf(name) && fs(name) == Found(true)))
    ensures ServeChoice(fs, name).Listing? ==>
      var n := ServeChoice(fs, name).name;
      && fs(n) == Found(true)
      && (n == name <==> fs(GophermapOf(name)).Unavailable?)
      && (n != name ==> n == GophermapOf(name) && fs(name) == Found(true))
  {
  }

  // ---------------------------------------------------------------------------
  // dirList

  /** A name as Readdir returns it: never empty. */
  type Name = s: string | |s| > 0 witness "."

  /** os.ModeDir, a regular file (no type bits), or any other kind (link, device, pipe, socket). */
  datatype Kind = DirectoryFile | RegularFile | OtherFile

  datatype FileInfo = FileInfo(name: Name, kind: Kind)

  /** Go's `<` on strings: byte by byte, and a proper prefix comes first. */
  predicate NameLess(a: string, b: string)
    decreases |a|
  {
    if |a| == 0 then |b| > 0
    else if |b| == 0 then false
    else if a[0] != b[0] then a[0] < b[0]
    else NameLess(a[1..], b[1..])
  }

  lemma {:induction false} NameLessAsymmetric(a: string, b: string)
    requires NameLess(a, b)
    ensures !NameLess(b, a)
    decreases |a|
  {
    if |a| > 0 && |b| > 0 && a[0] == b[0] {
      NameLessAsymmetric(a[1..], b[1..]);
    }
  }

  lemma {:induction false} NameLessTotal(a: string, b: string)
    requires !NameLess(a, b) && !NameLess(b, a)
    ensures a == b
    decreases |a|
  {
    if |a| > 0 && |b| > 0 {
      NameLessTotal(a[1..], b[1..]);
      assert a == [a[0]] + a[1..] && b == [b[0]] + b[1..];
    }
  }

  /** Ordered by name: no entry's name is less than the one before it. */
  predicate SortedByName(files: seq<FileInfo>)
  {
    forall k :: 0 < k < |files| ==> !NameLess(files[k].name, files[k - 1].name)
  }

  /** Puts `f` before the first entry whose name is not less than its own. */
  function Insert(f: FileInfo, sorted: seq<FileInfo>): (r: seq<FileInfo>)
    ensures |r| == |sorted| + 1 && (r[0] == f || (|sorted| > 0 && r[0] == sorted[0]))
    decreases |sorted|
  {
    if |sorted| == 0 || !NameLess(sorted[0].name, f.name) then [f] + sorted
    else [sorted[0]] + Insert(f, sorted[1..])
  }

  /** sort.Sort(byName(files)), as an insertion sort. */
  function SortByName(files: seq<FileInfo>): seq<FileInfo>
    decreases |files|
  {
    if |files| == 0 then [] else Insert(files[0], SortByName(files[1..]))
  }

  lemma {:induction false} InsertSorted(f: FileInfo, sorted: seq<FileInfo>)
    requires SortedByName(sorted)
    ensures SortedByName(Insert(f, sorted))
    ensures multiset(Insert(f, sorted)) == multiset{f} + multiset(sorted)
    decreases |sorted|
  {
    if |sorted| == 0 || !NameLess(sorted[0].name, f.name) {
    } else {
      var rest := sorted[1..];
      assert sorted == [sorted[0]] + rest;
      InsertSorted(f, rest);
      var tail := Insert(f, rest);
      if tail[0] == f {
        NameLessAsymmetric(sorted[0].name, f.name);
      }
      var r := [sorted[0]] + tail;
      forall k | 0 < k < |r|
        ensures !NameLess(r[k].name, r[k - 1].name)
      {
        if k > 1 {
          assert r[k] == tail[k - 1] && r[k - 1] == tail[k - 2];
        }
      }
    }
  }

  /** The listing is ordered by name and holds exactly the directory's entries. */
  lemma {:induction false} SortByNameSpec(files: seq<FileInfo>)
    ensures SortedByName(SortByName(files))
    ensures multiset(SortByName(files)) == multiset(files)
    decreases |files|
  {
    if |files| > 0 {
      SortByNameSpec(files[1..]);
      InsertSorted(files[0], SortByName(files[1..]));
      assert files == [files[0]] + files[1..];
    }
  }

  /** What dirList needs of the outside world for the directory it lists. */
  datatype Listed = Listed(
    dir: string,                                // the opened directory's full path
    rel: (string, string) -> Option<string>,    // filepath.Rel(root, path.Join(dir, name))
    classify: (string, string) -> ItemType)     // GetItemType(path.Join(dir, name))

  /** Dot files and entries that are neither directories nor regular files are not listed. */
  predicate Shown(f: FileInfo)
  {
    f.name[0] != '.' && f.kind != OtherFile
  }

  /** The menu item of a shown entry, at the request's local address, if Rel can name it. */
  function EntryItem(f: FileInfo, l: Listed, req: Request): Option<Item>
    requires Shown(f)
  {
    match l.rel(l.dir, f.name)
    case None => None
    case Some(p) =>
      var t := if f.kind == DirectoryFile then DirectoryType else l.classify(l.dir, f.name);
      Some(Item(t, f.name, p, req.localHost, req.localPort, []))
  }

  const ReadDirError: string := "Error reading directory"

  /**
   * dirList's loop from the sorted entries on: hidden and special entries are skipped, each
   * other one is written with WriteItem (whose error is ignored), and the first entry Rel
   * cannot name ends the listing with the error item.
   */
  function ListFrom(r: Reply, req: Request, l: Listed, files: seq<FileInfo>): Reply
    decreases |files|
  {
    if |files| == 0 then r
    else if !Shown(files[0]) then ListFrom(r, req, l, files[1..])
    else
      match EntryItem(files[0], l, req)
      case None => WriteNoticeData(r, req, ErrorType, ReadDirError).0
      case Some(i) => ListFrom(WriteItemData(r, req, i).0, req, l, files[1..])
  }

  /** dirList: an error item when the directory cannot be read, else its sorted entries. */
  function DirListReply(r: Reply, req: Request, l: Listed, entries: Option<seq<FileInfo>>): Reply
  {
    match entries
    case None => WriteNoticeData(r, req, ErrorType, ReadDirError).0
    case Some(files) => ListFrom(r, req, l, SortByName(files))
  }

  /** The items of the shown entries, in order, when Rel names every one of them. */
  function ListedItems(files: seq<FileInfo>, l: Listed, req: Request): (items: seq<Item>)
    ensures |items| <= |files|
    decreases |files|
  {
    if |files| == 0 then []
    else if !Shown(files[0]) then ListedItems(files[1..], l, req)
    else
      match EntryItem(files[0], l, req)
      case None => []
      case Some(i) => [i] + ListedItems(files[1..], l, req)
  }

  /** Rel names every shown entry. */
  predicate AllNamed(files: seq<FileInfo>, l: Listed)
  {
    forall k :: 0 <= k < |files| && Shown(files[k]) ==> l.rel(l.dir, files[k].name).Some?
  }

  /** The entries dirList lists, in order: dot files and entries that are neither directories nor regular files drop out. */
  function ShownEntries(files: seq<FileInfo>): (shown: seq<FileInfo>)
    ensures |shown| <= |files|
    ensures forall k :: 0 <= k < |shown| ==> Shown(shown[k]) && shown[k] in files
    decreases |files|
  {
    if |files| == 0 then []
    else if Shown(files[0]) then [files[0]] + ShownEntries(files[1..])
    else ShownEntries(files[1..])
  }

  /**
   * When Rel names every shown entry, the listing holds exactly one item per shown entry, in
   * order: a directory entry as a DIRECTORY item, a regular file with the classifier's type,
   * named by the entry, with Rel's path as its selector, at the request's local address.
   */
  lemma {:induction false} ListedItemsExactly(files: seq<FileInfo>, l: Listed, req: Request)
    requires AllNamed(files, l)
    ensures var items, shown := ListedItems(files, l, req), ShownEntries(files);
      && |items| == |shown|
      && forall k :: 0 <= k < |shown| ==>
        && l.rel(l.dir, shown[k].name).Some?
        && items[k] == Item(if shown[k].kind == DirectoryFile then DirectoryType else l.classify(l.dir, shown[k].name),
                            shown[k].name, l.rel(l.dir, shown[k].name).value,
                            req.localHost, req.localPort, [])
    decreases |files|
  {
    if |files| > 0 {
      var rest := files[1..];
      assert AllNamed(rest, l) by {
        forall k | 0 <= k < |rest| && Shown(rest[k])
          ensures l.rel(l.dir, rest[k].name).Some?
        {
          assert rest[k] == files[k + 1];
        }
      }
      ListedItemsExactly(rest, l, req);
      if Shown(files[0]) {
        assert l.rel(l.dir, files[0].name).Some?;
        var items, shown := ListedItems(files, l, req), ShownEntries(files);
        assert items == [EntryItem(files[0], l, req).value] + ListedItems(rest, l, req);
        assert shown == [files[0]] + ShownEntries(rest);
        forall k | 1 <= k < |shown|
          ensures shown[k] == ShownEntries(rest)[k - 1] && items[k] == ListedItems(rest, l, req)[k - 1]
        {
        }
      }
    }
  }

  /** The listed items name no hidden file, and sit at the request's local address. */
  lemma {:induction false} ListedItemsShape(files: seq<FileInfo>, l: Listed, req: Request)
    ensures forall i :: i in ListedItems(files, l, req) ==>
      && |i.description| > 0 && i.description[0] != '.'
      && i.host == req.localHost && i.port == req.localPort
      && (exists f :: f in files && Shown(f) && f.name == i.description)
    decreases |files|
  {
    if |files| > 0 {
      ListedItemsShape(files[1..], l, req);
      if Shown(files[0]) && EntryItem(files[0], l, req).Some? {
        var i := EntryItem(files[0], l, req).value;
        assert files[0] in files;
        forall j | j in ListedItems(files[1..], l, req)
          ensures exists f :: f in files && Shown(f) && f.name == j.description
        {
          var f :| f in files[1..] && Shown(f) && f.name == j.description;
          assert f in files;
        }
      } else {
        forall j | j in ListedItems(files[1..], l, req)
          ensures exists f :: f in files && Shown(f) && f.name == j.description
        {
          var f :| f in files[1..] && Shown(f) && f.name == j.description;
          assert f in files;
        }
      }
    }
  }

  /**
   * When Rel names every shown entry, dirList's writes are WriteItem's of the listed items,
   * in order: the reply is what writing those items gives.
   */
  lemma {:induction false} ListFromWritesItems(r: Reply, req: Request, l: Listed, files: seq<FileInfo>)
    requires AllNamed(files, l)
    ensures ListFrom(r, req, l, files) == WriteItemsData(r, req, ListedItems(files, l, req)).0
    decreases |files|
  {
    if |files| > 0 {
      var rest := files[1..];
      assert AllNamed(rest, l) by {
        forall k | 0 <= k < |rest| && Shown(rest[k])
          ensures l.rel(l.dir, rest[k].name).Some?
        {
          assert rest[k] == files[k + 1];
        }
      }
      if Shown(files[0]) {
        var i := EntryItem(files[0], l, req).value;
        var next := WriteItemData(r, req, i);
        ListFromWritesItems(next.0, req, l, rest);
        assert ListedItems(files, l, req) == [i] + ListedItems(rest, l, req);
        if next.1.Some? {
          NoWritesToDocument(next.0, req, l, rest);
        }
      } else {
        ListFromWritesItems(r, req, l, rest);
      }
    }
  }

  /** Once the reply is a document, dirList's item writes all fail and change nothing. */
  lemma {:induction false} NoWritesToDocument(r: Reply, req: Request, l: Listed, files: seq<FileInfo>)
    requires r.mode == Document && AllNamed(files, l)
    ensures ListFrom(r, req, l, files) == r
    decreases |files|
  {
    if |files| > 0 {
      var rest := files[1..];
      assert AllNamed(rest, l) by {
        forall k | 0 <= k < |rest| && Shown(rest[k])
          ensures l.rel(l.dir, rest[k].name).Some?
        {
          assert rest[k] == files[k + 1];
        }
      }
      NoWritesToDocument(r, req, l, rest);
    }
  }

  /**
   * A listing served as the whole reply (after End) scans back, on the client, into the
   * listed items in name order.
   */
  lemma ListingScansBack(req: Request, l: Listed, files: seq<FileInfo>)
    requires AllNamed(SortByName(files), l)
    requires forall i :: i in ListedItems(SortByName(files), l, req) ==> SingleLine(i)
    ensures ScanItems(ScanLines(EndReply(DirListReply(Fresh, req, l, Some(files))).output))
            == ListedItems(SortByName(files), l, req)
  {
    var items := ListedItems(SortByName(files), l, req);
    ListFromWritesItems(Fresh, req, l, SortByName(files));
    forall k | 0 <= k < |items|
      ensures WithLocalAddress(items[k], req) == items[k]
    {
      ListedItemsShape(SortByName(files), l, req);
      assert items[k] in items;
    }
    SentItems(items, req);
    assert Sent(items, req) == items;
    ServedMenuScansBack(req, items);
  }

  /** dirList: writes the sorted listing to `w` entry by entry. */
  method DirList(w: ResponseWriter, l: Listed, entries: Option<seq<FileInfo>>)
    modifies w
    ensures w.State() == DirListReply(old(w.State()), w.req, l, entries)
    ensures w.closed == old(w.closed)
  {
    if entries.None? {
      var err := w.WriteError(ReadDirError);
      return;
    }
    var files := SortByName(entries.value);
    var k := 0;
    while k < |files|
      invariant 0 <= k <= |files|
      invariant w.closed == old(w.closed)
      invariant ListFrom(w.State(), w.req, l, files[k..]) == DirListReply(old(w.State()), w.req, l, entries)
    {
      var f := files[k];
      assert files[k..][1..] == files[k + 1..];
      if !Shown(f) {
        k := k + 1;
        continue;
      }
      var p := l.rel(l.dir, f.name);
      if p.None? {
        var err := w.WriteError(ReadDirError);
        return;
      }
      var t := if f.kind == DirectoryFile then DirectoryType else l.classify(l.dir, f.name);
      var err, sent := w.WriteItem(Item(t, f.name, p.value, w.req.localHost, w.req.localPort, []));
      k := k + 1;
    }
  }

  // ---------------------------------------------------------------------------
  // The file handler

  /** The file system a FileServer serves, as seen through the calls the handler makes. */
  datatype FileSystem = FileSystem(
    lookup: string -> Lookup,                 // Open then Stat
    contents: string -> string,               // what io.Copy sends of a file
    readDir: string -> Option<seq<FileInfo>>, // Readdir(-1) of a directory, None on error
    listing: string -> Listed)                // what dirList needs for a directory

  /** fileHandler.ServeGopher's fix of the selector before path.Clean: a leading '/' when missing. */
  function HandlerPath(selector: string): string
  {
    if HasPrefix(selector, "/") then selector else "/" + selector
  }

  /** The handler's fix is the server's own normalization, so a selector the server read passes unchanged. */
  lemma HandlerPathIsNormalization(selector: string, data: string)
    ensures HandlerPath(selector) == NormalizeSelector(selector)
    ensures HandlerPath(ReadRequest(data)) == ReadRequest(data)
  {
  }

  /** serveFile's reply: the error item, the document, or the listing it chooses. */
  function ServeFileReply(r: Reply, req: Request, fs: FileSystem, name: string): Reply
  {
    match ServeChoice(fs.lookup, name)
    case Refused(e) => WriteNoticeData(r, req, ErrorType, e).0
    case Content(n) => WriteData(r, fs.contents(n)).0
    case Listing(n) => DirListReply(r, req, fs.listing(n), fs.readDir(n))
  }

  /** serveFile: opens and states the name, prefers a directory's gophermap, then lists or copies. */
  method ServeFile(w: ResponseWriter, fs: FileSystem, name: string)
    modifies w
    ensures w.State() == ServeFileReply(old(w.State()), w.req, fs, name)
    ensures w.closed == old(w.closed)
  {
    ghost var before := w.State();
    ghost var choice := ServeChoice(fs.lookup, name);
    var st := fs.lookup(name);
    if st.Unavailable? {
      assert choice == Refused(st.err);
      var err := w.WriteError(st.err);
      return;
    }
    var n, isDir := name, st.isDir;
    if isDir {
      var gm := GophermapOf(name);
      var gst := fs.lookup(gm);
      if gst.Found? {
        n, isDir := gm, gst.isDir;
      }
    }
    if isDir {
      assert choice == Listing(n);
      DirList(w, fs.listing(n), fs.readDir(n));
      return;
    }
    assert choice == Content(n);
    assert ServeFileReply(before, w.req, fs, name) == WriteData(before, fs.contents(n)).0;
    var count, err := w.Write(fs.contents(n));
  }

  /** A name that cannot be opened is answered with one error item carrying the error text. */
  lemma ServeUnavailable(req: Request, fs: FileSystem, name: string)
    requires fs.lookup(name).Unavailable?
    ensures EndReply(ServeFileReply(Fresh, req, fs, name)).output
            == Marshal(Notice(ErrorType, fs.lookup(name).err)) + Terminator
  {
    ServeChoiceSpec(fs.lookup, name);
    assert "" + Marshal(Notice(ErrorType, fs.lookup(name).err)) == Marshal(Notice(ErrorType, fs.lookup(name).err));
  }

  /** A file is sent as it is, with no terminator, and the client's file fetch returns it whole. */
  lemma ServeRegularFile(req: Request, fs: FileSystem, name: string, i: Item)
    requires fs.lookup(name) == Found(false) && i.itemType != DirectoryType
    ensures EndReply(ServeFileReply(Fresh, req, fs, name)).output == fs.contents(name)
    ensures FetchFile(i, EndReply(ServeFileReply(Fresh, req, fs, name)).output) == Success(fs.contents(name))
  {
    assert "" + fs.contents(name) == fs.contents(name);
  }

  /** A directory with a gophermap file is answered with that file, not with a listing. */
  lemma ServeGophermap(req: Request, fs: FileSystem, name: string)
    requires fs.lookup(name) == Found(true) && fs.lookup(GophermapOf(name)) == Found(false)
    ensures EndReply(ServeFileReply(Fresh, req, fs, name)).output == fs.contents(GophermapOf(name))
  {
    assert "" + fs.contents(GophermapOf(name)) == fs.contents(GophermapOf(name));
  }

  /**
   * A directory without a gophermap is listed, and the client reads the listing back as the
   * items of its shown entries in name order.
   */
  lemma ServeDirectory(req: Request, fs: FileSystem, name: string, files: seq<FileInfo>)
    requires fs.lookup(name) == Found(true) && fs.lookup(GophermapOf(name)).Unavailable?
    requires fs.readDir(name) == Some(files)
    requires AllNamed(SortByName(files), fs.listing(name))
    requires forall i :: i in ListedItems(SortByName(files), fs.listing(name), req) ==> SingleLine(i)
    ensures ScanItems(ScanLines(EndReply(ServeFileReply(Fresh, req, fs, name)).output))
            == ListedItems(SortByName(files), fs.listing(name), req)
  {
    ListingScansBack(req, fs.listing(name), files);
  }
}
