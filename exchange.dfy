/**
 * A whole exchange: what a client sends for a URI, what the server reads and routes, what
 * the handler writes, and what the client makes of the reply once the connection closes.
 */
module Exchange {
  import opened Wrappers
  import opened Text
  import opened Items
  import opened Directories
  import opened Client
  import opened Router
  import opened Server

  /**
   * A menu a handler writes item by item, once End has run, is everything the client
   * reads; the client's scan gives back exactly the items as sent, in order.
   */
  lemma ServedMenuScansBack(req: Request, items: seq<Item>)
    requires forall k :: 0 <= k < |items| ==> SingleLine(WithLocalAddress(items[k], req))
    ensures ScanItems(ScanLines(EndReply(WriteItemsData(Fresh, req, items).0).output)) == Sent(items, req)
  {
    WriteItemsSendsMenu(Fresh, req, items);
    SentItems(items, req);
    var sent := Sent(items, req);
    if |items| == 0 {
      assert WriteItemsData(Fresh, req, items).0 == Fresh;
      assert ScanLines("") == [];
    } else {
      var out := MenuText(sent) + Terminator;
      assert "" + MenuText(sent) == MenuText(sent);
      assert EndReply(WriteItemsData(Fresh, req, items).0).output == out;
      assert out + "" == out;
      ScanOfMenuText(sent, "");
    }
  }

  /** A selector the client sends is the one the server routes, with its leading '/' put back. */
  lemma SelectorReachesServer(i: Item)
    requires LF !in i.selector
    ensures ReadRequest(RequestLine(i)) == NormalizeSelector(i.selector)
  {
    var line := i.selector + CRLF;
    assert line + "" == line;
    ReadRequestOfLine(i.selector, "");
  }

  // ---------------------------------------------------------------------------
  // The package's hello exchange: a server with "/" and "/hello" registered, and a
  // client asking for gopher://localhost:7000/1hello

  const HelloText: string := "Hello World!"

  /** The only item of the hello menu: an informational line on error.host port 1. */
  const HelloItem: Item := Notice(InfoType, HelloText)

  /** The menu the hello handler sends: its informational line, then the "." line. */
  const HelloReply: string := "iHello World!\t\terror.host\t1\r\n.\r\n"

  /** The item the client asks the server for. */
  const HelloTarget: Item := Item(DirectoryType, "", "hello", "localhost", 7000, [])

  /** The URI names a directory fetch of selector "hello" from localhost port 7000. */
  lemma HelloRequest()
    ensures Resolve(Uri("gopher", "localhost:7000", "/1hello", "")) == Success(HelloTarget)
  {
    HelloHostPort();
    HelloPath();
  }

  /** The server reads the request line for "hello" as the selector "/hello". */
  lemma HelloRead()
    ensures ReadRequest(RequestLine(HelloTarget)) == "/hello"
  {
    assert LF !in HelloTarget.selector;
    SelectorReachesServer(HelloTarget);
    assert "hello"[..1] == "h";
    assert !HasPrefix("hello", "/");
    assert NormalizeSelector("hello") == "/" + "hello";
  }

  lemma HelloPath()
    ensures RequestTarget("/1hello", "") == (DirectoryType, "hello")
  {
    RequestTargetOfLongPath(DirectoryType, "hello", "");
    assert "/1hello" == "/" + [DirectoryType] + "hello";
  }

  lemma HelloHostPort()
    ensures HostPort("localhost:7000") == Success(("localhost", 7000))
  {
    assert Join(["localhost", "7000"], ':') == "localhost:7000";
    SplitOfJoin(["localhost", "7000"], ':');
    HelloPort();
  }

  lemma HelloPort()
    ensures ParseInt32("7000") == Some(7000)
  {
    assert AllDigits("7000");
    assert "7000"[..3] == "700" && "700"[..2] == "70" && "70"[..1] == "7" && "7"[..0] == "";
    assert DigitsValue("7") == 7;
    assert DigitsValue("70") == 70;
    assert DigitsValue("700") == 700;
    assert DigitsValue("7000") == 7000;
  }

  /** "/hello" is the longest pattern that matches "/hello", ahead of the file server's "/". */
  lemma HelloRoute(m: map<string, MuxEntry>, files: Handler, hello: Handler)
    requires m == map["/" := MuxEntry(true, files, "/"), "/hello" := MuxEntry(true, hello, "/hello")]
    ensures IsLongestMatch(m, "/hello", "/hello")
    ensures SelectorMatch("/", "/hello")
  {
    assert "/hello"[..1] == "/";
  }

  /** The hello handler's one WriteInfo, then End, sends the informational line and the "." line. */
  lemma HelloServed(req: Request)
    ensures WriteNoticeData(Fresh, req, InfoType, HelloText).1.None?
    ensures EndReply(WriteNoticeData(Fresh, req, InfoType, HelloText).0).output == HelloReply
    ensures EndReply(WriteNoticeData(Fresh, req, InfoType, HelloText).0)
            == EndReply(WriteItemsData(Fresh, req, [HelloItem]).0)
  {
    assert WithLocalAddress(HelloItem, req) == HelloItem;
    HelloItemText();
    assert "" + Marshal(HelloItem) + Terminator == HelloReply;
  }

  lemma HelloItemText()
    ensures Marshal(HelloItem) == "iHello World!\t\terror.host\t1\r\n"
  {
    HelloFields();
    JoinFour("iHello World!", "", "error.host", "1");
    HelloLine();
  }

  lemma HelloFields()
    ensures ItemFields(HelloItem) == ["iHello World!", "", "error.host", "1"]
  {
    assert Itoa(1) == "1";
    assert [InfoType] + HelloText == "iHello World!";
  }

  lemma HelloLine()
    ensures "iHello World!" + [TAB] + "" + [TAB] + "error.host" + [TAB] + "1" + CRLF
            == "iHello World!\t\terror.host\t1\r\n"
  {
  }

  lemma HelloItemIsSingleLine()
    ensures SingleLine(HelloItem)
  {
    assert forall k :: 0 <= k < |HelloText| ==> HelloText[k] != TAB && HelloText[k] != LF;
    assert forall k :: 0 <= k < |ErrorHost| ==> ErrorHost[k] != TAB && ErrorHost[k] != LF;
  }

  /**
   * The client reads the hello reply as a directory of one informational item,
   * "Hello World!", whose text is the line the package's test expects.
   */
  lemma HelloReceived()
    ensures ResponseFor(HelloTarget, HelloReply) == Response(DirectoryType, Directory([HelloItem]), None)
    ensures HelloItem.itemType == InfoType && HelloItem.description == "Hello World!"
    ensures MenuText([HelloItem]) == "iHello World!\t\terror.host\t1\r\n"
  {
    var req := Request("/hello", "localhost", 7000);
    HelloServed(req);
    HelloItemIsSingleLine();
    assert WithLocalAddress(HelloItem, req) == HelloItem;
    ServedMenuScansBack(req, [HelloItem]);
    assert Sent([HelloItem], req) == [HelloItem];
    assert MenuText([HelloItem]) == MenuText([]) + Marshal(HelloItem);
    HelloItemText();
  }
}
