/**
 * Client side of gopher.go: how Get turns a gopher URI into the item it fetches, the
 * guards of FetchFile and FetchDirectory, and FetchDirectory's scan of the reply.
 * The network is a parameter: `reply` is what the server sends back after the request
 * line RequestLine(item).
 */
module Client {
  import opened Wrappers
  import opened Text
  import opened Items
  import opened Directories

  /** The well-known gopher port. */
  const DefaultPort: int := 70

  /** A URI after url.Parse: scheme, host (with any port), path and raw query. */
  datatype Uri = Uri(scheme: string, host: string, path: string, rawQuery: string)

  datatype ClientError =
    | InvalidScheme             // "invalid scheme for uri"
    | InvalidPort(text: string) // strconv.ParseInt's error on the port
    | FileFetchOfDirectory      // "cannot fetch a directory as a file"
    | DirectoryFetchOfFile      // "cannot fetch a file as a directory"

  /** What Get returns: a menu for directory-like types, otherwise the document's bytes. */
  datatype Response = Response(itemType: ItemType, dir: Directory, body: Option<string>)

  // ---------------------------------------------------------------------------
  // Deriving the request from the URI

  /** Get's split of the URI host on ':'. */
  function HostPort(host: string): Result<(string, int), ClientError>
  {
    var hp := Split(host, ':');
    if |hp| == 2 then
      match ParseInt32(hp[1])
      case Some(n) => Success((hp[0], n))
      case None => Failure(InvalidPort(hp[1]))
    else Success((hp[0], DefaultPort))
  }

  /**
   * A host with exactly one ':' has the decimal int32 after it as its port; anything else
   * there is an error.
   */
  lemma HostPortOneColon(host: string)
    requires Count(host, ':') == 1
    ensures var k := IndexOf(host, ':');
      k < |host| &&
      HostPort(host) == match ParseInt32(host[k + 1..])
                        case Some(n) => Success((host[..k], n))
                        case None => Failure(InvalidPort(host[k + 1..]))
  {
    SplitCount(host, ':');
    SplitOneSeparator(host, ':');
  }

  /** Every other host keeps the text up to its first ':' and gets port 70. */
  lemma HostPortDefault(host: string)
    requires Count(host, ':') != 1
    ensures HostPort(host) == Success((host[..IndexOf(host, ':')], DefaultPort))
  {
    SplitCount(host, ':');
    SplitSpec(host, ':');
  }

  /** Get's choice of item type and selector from the URI path and query. */
  function RequestTarget(path: string, rawQuery: string): (ItemType, string)
  {
    var p := TrimPrefix(path, "/");
    if |p| > 2 then (p[0], p[1..] + (if rawQuery != "" then [TAB] + rawQuery else ""))
    else if |p| == 1 then (p[0], "")
    else (DirectoryType, "")
  }

  /**
   * A path "/<type><selector>" with a selector of two or more bytes names that type and
   * selector, and a non-empty query is appended to the selector after a TAB.
   */
  lemma RequestTargetOfLongPath(t: ItemType, selector: string, rawQuery: string)
    requires |selector| >= 2
    ensures RequestTarget("/" + [t] + selector, rawQuery) ==
            (t, if rawQuery == "" then selector else selector + [TAB] + rawQuery)
  {
    var path := "/" + [t] + selector;
    assert HasPrefix(path, "/");
    assert TrimPrefix(path, "/") == [t] + selector;
    assert ([t] + selector)[1..] == selector;
    assert selector + "" == selector;
    assert selector + ([TAB] + rawQuery) == selector + [TAB] + rawQuery;
  }

  /**
   * Paths of at most two bytes after the leading '/' never carry the query: a one-byte path
   * is only a type, and an empty or two-byte path is the root menu.
   */
  lemma RequestTargetOfShortPath(path: string, rawQuery: string)
    requires |TrimPrefix(path, "/")| <= 2
    ensures var p := TrimPrefix(path, "/");
      RequestTarget(path, rawQuery) == if |p| == 1 then (p[0], "") else (DirectoryType, "")
  {
  }

  /** A two-byte path such as "/0a" loses both its type and its selector. */
  lemma TwoBytePathIsRootMenu(t: ItemType, c: char, rawQuery: string)
    ensures RequestTarget("/" + [t, c], rawQuery) == (DirectoryType, "")
  {
    assert TrimPrefix("/" + [t, c], "/") == [t, c];
  }

  /** The item Get fetches for a URI, or why it cannot. */
  function Resolve(u: Uri): (r: Result<Item, ClientError>)
    ensures u.scheme != "gopher" ==> r == Failure(InvalidScheme)
    ensures r.Success? ==>
      && r.value.selector == RequestTarget(u.path, u.rawQuery).1
      && r.value.itemType == RequestTarget(u.path, u.rawQuery).0
      && HostPort(u.host) == Success((r.value.host, r.value.port))
      && r.value.description == "" && r.value.extras == []
    ensures r.Failure? && u.scheme == "gopher" ==> HostPort(u.host).Failure? && r.error == HostPort(u.host).error
  {
    if u.scheme != "gopher" then Failure(InvalidScheme)
    else
      match HostPort(u.host)
      case Failure(e) => Failure(e)
      case Success(hp) =>
        var target := RequestTarget(u.path, u.rawQuery);
        Success(Item(target.0, "", target.1, hp.0, hp.1, []))
  }

  /** The bytes written to the server once connected: the selector and CRLF. */
  function RequestLine(i: Item): string
  {
    i.selector + CRLF
  }

  // ---------------------------------------------------------------------------
  // Fetching

  /** FetchFile: refuses only DIRECTORY items; otherwise the document is whatever the server sends. */
  function FetchFile(i: Item, reply: string): (r: Result<string, ClientError>)
    ensures r.Failure? <==> i.itemType == DirectoryType
    ensures r.Success? ==> r.value == reply
  {
    if i.itemType == DirectoryType then Failure(FileFetchOfDirectory) else Success(reply)
  }

  /**
   * The items a line-by-line scan keeps, for a given line parser: each line is trimmed of
   * CR and LF, empty lines are skipped, a line "." ends the scan, lines the parser refuses
   * are dropped. The parser is a parameter so that the properties of the scan below hold
   * whatever it does with a line.
   */
  function ScanWith(parse: string -> Result<Item, ParseError>, lines: seq<string>): seq<Item>
    decreases |lines|
  {
    if |lines| == 0 then []
    else
      var line := TrimLineEnds(lines[0]);
      if |line| == 0 then ScanWith(parse, lines[1..])
      else if |line| == 1 && line[0] == End then []
      else
        match parse(line)
        case Success(x) => [x] + ScanWith(parse, lines[1..])
        case Failure(_) => ScanWith(parse, lines[1..])
  }

  /** The items FetchDirectory keeps from the scanned lines of a reply. */
  function ScanItems(lines: seq<string>): seq<Item>
  {
    ScanWith(Parse, lines)
  }

  /** One step of the scan, at line `k`. */
  lemma ScanStep(parse: string -> Result<Item, ParseError>, lines: seq<string>, k: nat)
    requires k < |lines|
    ensures var line := TrimLineEnds(lines[k]);
      ScanWith(parse, lines[k..]) ==
        if |line| == 0 then ScanWith(parse, lines[k + 1..])
        else if |line| == 1 && line[0] == End then []
        else if parse(line).Success? then [parse(line).value] + ScanWith(parse, lines[k + 1..])
        else ScanWith(parse, lines[k + 1..])
  {
    assert lines[k..][1..] == lines[k + 1..];
  }

  /** FetchDirectory: refuses types that are not directory-like, then scans the reply line by line. */
  method FetchDirectory(i: Item, reply: string) returns (r: Result<Directory, ClientError>)
    ensures !IsDirectoryLike(i.itemType) ==> r == Failure(DirectoryFetchOfFile)
    ensures IsDirectoryLike(i.itemType) ==> r == Success(Directory(ScanItems(ScanLines(reply))))
  {
    if !IsDirectoryLike(i.itemType) {
      return Failure(DirectoryFetchOfFile);
    }
    var lines := ScanLines(reply);
    var items: seq<Item> := [];
    var k := 0;
    while k < |lines|
      invariant 0 <= k <= |lines|
      invariant items + ScanWith(Parse, lines[k..]) == ScanWith(Parse, lines)
    {
      ScanStep(Parse, lines, k);
      var line := TrimLineEnds(lines[k]);
      if |line| == 0 {
        k := k + 1;
        continue;
      }
      if |line| == 1 && line[0] == End {
        assert items + [] == items;
        break;
      }
      var parsed := ParseItem(line);
      assert Parse(line) == parsed;
      if parsed.Failure? {
        k := k + 1;
        continue;
      }
      assert items + ([parsed.value] + ScanWith(Parse, lines[k + 1..]))
          == (items + [parsed.value]) + ScanWith(Parse, lines[k + 1..]);
      items := items + [parsed.value];
      k := k + 1;
    }
    assert lines[|lines|..] == [];
    assert items == ScanItems(lines);
    r := Success(Directory(items));
  }

  /** Get's response for a resolved item: directory-like types are scanned as menus, the rest are documents. */
  function ResponseFor(i: Item, reply: string): Response
  {
    if IsDirectoryLike(i.itemType) then Response(i.itemType, Directory(ScanItems(ScanLines(reply))), None)
    else Response(i.itemType, Directory([]), Some(reply))
  }

  /**
   * Get: resolves the URI, then fetches a directory or a file by the item's type. Each type
   * goes to the fetch whose guard accepts it, so once the URI resolves the fetch itself
   * cannot refuse.
   */
  method Get(u: Uri, reply: string) returns (r: Result<Response, ClientError>)
    ensures Resolve(u).Failure? ==> r == Failure(Resolve(u).error)
    ensures Resolve(u).Success? ==> r == Success(ResponseFor(Resolve(u).value, reply))
  {
    var resolved := Resolve(u);
    if resolved.Failure? {
      return Failure(resolved.error);
    }
    var i := resolved.value;
    if IsDirectoryLike(i.itemType) {
      var d := FetchDirectory(i, reply);
      r := Success(Response(i.itemType, d.value, None));
    } else {
      var body := FetchFile(i, reply);
      r := Success(Response(i.itemType, Directory([]), Some(body.value)));
    }
  }

  // ---------------------------------------------------------------------------
  // Properties of the scan, for any line parser

  /** Whether a scanned line ends the menu. */
  predicate IsTerminatorLine(line: string)
  {
    var t := TrimLineEnds(line);
    |t| == 1 && t[0] == End
  }

  /** Every item the scan keeps is what the parser made of one of the lines. */
  lemma {:induction false} ScanComesFromLines(parse: string -> Result<Item, ParseError>, lines: seq<string>)
    ensures forall x :: x in ScanWith(parse, lines) ==>
      exists j :: 0 <= j < |lines| && parse(TrimLineEnds(lines[j])) == Success(x)
    decreases |lines|
  {
    if |lines| > 0 {
      var tail := lines[1..];
      ScanComesFromLines(parse, tail);
      forall x | x in ScanWith(parse, lines)
        ensures exists j :: 0 <= j < |lines| && parse(TrimLineEnds(lines[j])) == Success(x)
      {
        if x in ScanWith(parse, tail) {
          var j :| 0 <= j < |tail| && parse(TrimLineEnds(tail[j])) == Success(x);
          assert tail[j] == lines[j + 1];
        } else {
          assert parse(TrimLineEnds(lines[0])) == Success(x);
        }
      }
    }
  }

  /** Lines before the first "." line are scanned independently of what follows them. */
  lemma {:induction false} ScanAppend(parse: string -> Result<Item, ParseError>, a: seq<string>, b: seq<string>)
    requires forall j :: 0 <= j < |a| ==> !IsTerminatorLine(a[j])
    ensures ScanWith(parse, a + b) == ScanWith(parse, a) + ScanWith(parse, b)
    decreases |a|
  {
    if |a| > 0 {
      var ab := a + b;
      var line := TrimLineEnds(a[0]);
      assert ab[0] == a[0];
      assert ab[1..] == a[1..] + b;
      assert !IsTerminatorLine(a[0]);
      ScanAppend(parse, a[1..], b);
      if |line| == 0 {
        assert ScanWith(parse, ab) == ScanWith(parse, a[1..] + b);
        assert ScanWith(parse, a) == ScanWith(parse, a[1..]);
      } else {
        match parse(line)
        case Success(x) =>
          assert ScanWith(parse, ab) == [x] + ScanWith(parse, a[1..] + b);
          assert ScanWith(parse, a) == [x] + ScanWith(parse, a[1..]);
        case Failure(_) =>
          assert ScanWith(parse, ab) == ScanWith(parse, a[1..] + b);
          assert ScanWith(parse, a) == ScanWith(parse, a[1..]);
      }
    } else {
      assert a + b == b;
    }
  }

  /** Nothing after the first "." line reaches the directory. */
  lemma ScanStopsAtTerminator(parse: string -> Result<Item, ParseError>, a: seq<string>, terminator: string, rest: seq<string>)
    requires forall j :: 0 <= j < |a| ==> !IsTerminatorLine(a[j])
    requires IsTerminatorLine(terminator)
    ensures ScanWith(parse, a + [terminator] + rest) == ScanWith(parse, a)
  {
    assert a + [terminator] + rest == a + ([terminator] + rest);
    ScanAppend(parse, a, [terminator] + rest);
  }

  /** Lines that are already trimmed, non-empty and accepted by the parser scan into exactly their parses. */
  lemma {:induction false} ScanOfAcceptedLines(parse: string -> Result<Item, ParseError>, lines: seq<string>, items: seq<Item>)
    requires |lines| == |items|
    requires forall j :: 0 <= j < |lines| ==>
      TrimLineEnds(lines[j]) == lines[j] && |lines[j]| > 1 && parse(lines[j]) == Success(items[j])
    ensures ScanWith(parse, lines) == items
    decreases |lines|
  {
    if |lines| > 0 {
      ScanOfAcceptedLines(parse, lines[1..], items[1..]);
      assert items == [items[0]] + items[1..];
    }
  }

  // ---------------------------------------------------------------------------
  // The scan of a server's menu

  /** An item that survives a round trip and whose fields hold no line feed. */
  predicate SingleLine(i: Item)
  {
    && WellFormed(i)
    && LF !in i.description && LF !in i.selector && LF !in i.host
    && (forall k :: 0 <= k < |i.extras| ==> LF !in i.extras[k])
  }

  lemma ItemLineHasNoLineFeed(i: Item)
    requires SingleLine(i)
    ensures LF !in ItemLine(i)
  {
    var f := ItemFields(i);
    forall k | 0 <= k < |f|
      ensures LF !in f[k]
    {
      if k == 3 {
        assert forall j :: 0 <= j < |Itoa(i.port)| ==> Itoa(i.port)[j] != LF;
      } else if k > 3 {
        assert f[k] == i.extras[k - 4];
      }
    }
    JoinAvoids(f, TAB, LF);
  }

  /** The line of an item holds a TAB, so it is neither empty nor the "." line. */
  lemma ItemLineIsLong(i: Item)
    ensures |ItemLine(i)| > 1
  {
    var f := ItemFields(i);
    assert f == [f[0]] + f[1..];
    JoinCons(f[0], f[1..], TAB);
  }

  /** The scanner splits menu text into the items' lines. */
  lemma ScanLinesOfMenu(items: seq<Item>, rest: string)
    requires forall k :: 0 <= k < |items| ==> SingleLine(items[k])
    ensures ScanLines(MenuText(items) + rest) == MenuLines(items) + ScanLines(rest)
  {
    var lines := MenuLines(items);
    forall j | 0 <= j < |lines|
      ensures LF !in lines[j]
    {
      ItemLineHasNoLineFeed(items[j]);
    }
    MenuTextIsLines(items);
    ScanLinesOfCrlfLines(lines, rest);
  }

  /** The lines of single-line items are trimmed, not the "." line, and scan back into the items. */
  lemma MenuLinesScan(items: seq<Item>)
    requires forall k :: 0 <= k < |items| ==> SingleLine(items[k])
    ensures forall j :: 0 <= j < |items| ==> !IsTerminatorLine(MenuLines(items)[j])
    ensures ScanItems(MenuLines(items)) == items
  {
    var lines := MenuLines(items);
    forall j | 0 <= j < |lines|
      ensures TrimLineEnds(lines[j]) == lines[j] && |lines[j]| > 1 && Parse(lines[j]) == Success(items[j])
    {
      ItemLineShape(items[j]);
      TrimLineEndsOfClean(lines[j]);
      ItemLineIsLong(items[j]);
      ParseItemLine(items[j]);
    }
    ScanOfAcceptedLines(Parse, lines, items);
  }

  /** The menu terminator is scanned as the "." line. */
  lemma TerminatorScans(rest: string)
    ensures ScanLines(Terminator + rest) == ["."] + ScanLines(rest)
    ensures IsTerminatorLine(".")
  {
    assert Terminator + rest == "." + CRLF + rest;
    ScanLinesCons(".", rest);
    TrimLineEndsOfClean(".");
  }

  /**
   * Directory round trip: a server's menu text followed by the "." line, whatever comes
   * after it, scans back to exactly the items, in order.
   */
  lemma ScanOfMenuText(items: seq<Item>, rest: string)
    requires forall k :: 0 <= k < |items| ==> SingleLine(items[k])
    ensures ScanItems(ScanLines(MenuText(items) + Terminator + rest)) == items
  {
    var lines := MenuLines(items);
    assert MenuText(items) + Terminator + rest == MenuText(items) + (Terminator + rest);
    ScanLinesOfMenu(items, Terminator + rest);
    TerminatorScans(rest);
    MenuLinesScan(items);
    assert lines + (["."] + ScanLines(rest)) == lines + ["."] + ScanLines(rest);
    ScanStopsAtTerminator(Parse, lines, ".", ScanLines(rest));
  }

  /** A whole reply made of a menu and its "." line scans back to exactly the menu's items. */
  lemma ScanOfEndedMenu(items: seq<Item>)
    requires forall k :: 0 <= k < |items| ==> SingleLine(items[k])
    ensures ScanItems(ScanLines(MenuText(items) + Terminator)) == items
  {
    var text := MenuText(items) + Terminator;
    assert text + "" == text;
    ScanOfMenuText(items, "");
  }

  /** A line the parser refuses is dropped, and the scan goes on after it. */
  lemma ScanDropsRefusedLine(bad: string, lines: seq<string>)
    requires !IsTerminatorLine(bad) && Parse(TrimLineEnds(bad)).Failure?
    ensures ScanItems([bad] + lines) == ScanItems(lines)
  {
    assert ([bad] + lines)[1..] == lines;
  }

  /** The items of a menu come first in the scan, whatever follows a refused line after them. */
  lemma ScanPastRefusedLine(before: seq<Item>, bad: string, lines: seq<string>)
    requires forall k :: 0 <= k < |before| ==> SingleLine(before[k])
    requires !IsTerminatorLine(bad) && Parse(TrimLineEnds(bad)).Failure?
    ensures ScanItems(MenuLines(before) + ([bad] + lines)) == before + ScanItems(lines)
  {
    MenuLinesScan(before);
    ScanAppend(Parse, MenuLines(before), [bad] + lines);
    ScanDropsRefusedLine(bad, lines);
  }

  /** A menu, a line and more text are scanned as the menu's lines, that line, then the rest's lines. */
  lemma ScanLinesAroundLine(before: seq<Item>, bad: string, tail: string)
    requires forall k :: 0 <= k < |before| ==> SingleLine(before[k])
    requires LF !in bad
    ensures ScanLines(MenuText(before) + bad + CRLF + tail) == MenuLines(before) + ([bad] + ScanLines(tail))
  {
    assert MenuText(before) + bad + CRLF + tail == MenuText(before) + (bad + CRLF + tail);
    ScanLinesOfMenu(before, bad + CRLF + tail);
    ScanLinesCons(bad, tail);
  }

  /**
   * Fault tolerance: a malformed line between two menus is dropped, and the items on both
   * sides of it are kept, in order.
   */
  lemma ScanDropsMalformedLine(before: seq<Item>, bad: string, after: seq<Item>)
    requires forall k :: 0 <= k < |before| ==> SingleLine(before[k])
    requires forall k :: 0 <= k < |after| ==> SingleLine(after[k])
    requires LF !in bad && !IsTerminatorLine(bad) && Parse(TrimLineEnds(bad)).Failure?
    ensures ScanItems(ScanLines(MenuText(before) + bad + CRLF + MenuText(after) + Terminator)) == before + after
  {
    var head := MenuText(before) + bad + CRLF;
    var tail := MenuText(after) + Terminator;
    assert head + MenuText(after) + Terminator == head + tail;
    ScanDropsLineBefore(before, bad, tail);
    ScanOfEndedMenu(after);
  }

  lemma ScanDropsLineBefore(before: seq<Item>, bad: string, tail: string)
    requires forall k :: 0 <= k < |before| ==> SingleLine(before[k])
    requires LF !in bad && !IsTerminatorLine(bad) && Parse(TrimLineEnds(bad)).Failure?
    ensures ScanItems(ScanLines(MenuText(before) + bad + CRLF + tail)) == before + ScanItems(ScanLines(tail))
  {
    ScanLinesAroundLine(before, bad, tail);
    ScanPastRefusedLine(before, bad, ScanLines(tail));
  }
}
