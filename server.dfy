/**
 * Server side of gopher.go: reading the selector a client sends, the request a handler
 * sees, and the response writer, whose first write decides whether the reply is a
 * document or a menu.
 */
module Server {
  import opened Wrappers
  import opened Text
  import opened Items
  import opened Directories

  // ---------------------------------------------------------------------------
  // Requests

  /** What a handler is told about a request: the selector and the address clients should use. */
  datatype Request = Request(selector: string, localHost: string, localPort: int)

  datatype RequestError = BadListenerPort(port: string)

  /** readRequest's clean-up: an empty selector becomes "/", and a missing leading '/' is added. */
  function NormalizeSelector(s: string): (r: string)
    ensures HasPrefix(r, "/")
    ensures HasPrefix(s, "/") ==> r == s
    ensures !HasPrefix(s, "/") ==> r == "/" + s
  {
    var t := if s == "" then "/" else s;
    if HasPrefix(t, "/") then t else "/" + t
  }

  /** Normalizing twice is normalizing once. */
  lemma NormalizeSelectorIdempotent(s: string)
    ensures NormalizeSelector(NormalizeSelector(s)) == NormalizeSelector(s)
  {
  }

  /** The first token the line scanner yields, or "" when there is none. */
  function FirstLine(data: string): string
  {
    var lines := ScanLines(data);
    if |lines| == 0 then "" else lines[0]
  }

  /** readRequest: the normalized first line of what the client sent. */
  function ReadRequest(data: string): string
  {
    NormalizeSelector(FirstLine(data))
  }

  /** A selector sent with its CRLF, whatever follows, is read back normalized. */
  lemma ReadRequestOfLine(selector: string, rest: string)
    requires LF !in selector
    ensures ReadRequest(selector + CRLF + rest) == NormalizeSelector(selector)
  {
    ScanLinesCons(selector, rest);
  }

  /** A client that sends nothing asks for the root selector. */
  lemma ReadRequestOfNothing()
    ensures ReadRequest("") == "/"
  {
  }

  /**
   * conn.readRequest: the selector, then the host clients should use, which is the server's
   * configured Hostname when set and the listener's host otherwise, and the listener's port,
   * which must be a decimal int32.
   */
  function LocalRequest(data: string, hostname: string, listenerHost: string, listenerPort: string)
    : (r: Result<Request, RequestError>)
    ensures r.Failure? <==> ParseInt32(listenerPort).None?
    ensures r.Success? ==>
      && r.value.selector == ReadRequest(data)
      && r.value.localHost == (if hostname != "" then hostname else listenerHost)
      && Some(r.value.localPort) == ParseInt32(listenerPort)
  {
    match ParseInt32(listenerPort)
    case None => Failure(BadListenerPort(listenerPort))
    case Some(n) =>
      if hostname == "" then Success(Request(ReadRequest(data), listenerHost, n))
      else Success(Request(ReadRequest(data), hostname, n))
  }

  // ---------------------------------------------------------------------------
  // The reply, as a value

  /** The response's rt field: 0 before the first write, 1 for a document, 2 for a menu. */
  datatype Mode = Undetermined | Document | Menu

  datatype WriterError =
    | DocumentDataToMenu   // "cannot write document data to a directory"
    | MenuDataToDocument   // "cannot write directory data to a document"

  /** What has been sent so far, and in which mode. */
  datatype Reply = Reply(mode: Mode, output: string)

  /** The reply before any write. */
  const Fresh: Reply := Reply(Undetermined, "")

  /** The first write decides the mode; later writes leave it alone. */
  function Fix(mode: Mode, wanted: Mode): Mode
  {
    if mode == Undetermined then wanted else mode
  }

  /** An item with no host and port 0 is sent with the request's local address. */
  function WithLocalAddress(i: Item, req: Request): (r: Item)
    ensures i.host == "" && i.port == 0 ==> r == i.(host := req.localHost, port := req.localPort)
    ensures !(i.host == "" && i.port == 0) ==> r == i
  {
    if i.host == "" && i.port == 0 then i.(host := req.localHost, port := req.localPort) else i
  }

  /** Write: document data, refused once the reply is a menu. */
  function WriteData(r: Reply, b: string): (Reply, Option<WriterError>)
  {
    var mode := Fix(r.mode, Document);
    if mode != Document then (Reply(mode, r.output), Some(DocumentDataToMenu))
    else (Reply(mode, r.output + b), None)
  }

  /** WriteItem: one menu line, refused once the reply is a document. */
  function WriteItemData(r: Reply, req: Request, i: Item): (Reply, Option<WriterError>)
  {
    var mode := Fix(r.mode, Menu);
    if mode != Menu then (Reply(mode, r.output), Some(MenuDataToDocument))
    else (Reply(mode, r.output + Marshal(WithLocalAddress(i, req))), None)
  }

  /** The item WriteInfo and WriteError send: the message as description, on error.host port 1. */
  function Notice(t: ItemType, msg: string): Item
  {
    Item(t, msg, "", ErrorHost, ErrorPort, [])
  }

  /** WriteInfo (type 'i') and WriteError (type '3'): a menu line, or the bare message in a document. */
  function WriteNoticeData(r: Reply, req: Request, t: ItemType, msg: string): (Reply, Option<WriterError>)
  {
    var mode := Fix(r.mode, Menu);
    if mode != Menu then (Reply(mode, r.output + msg), None)
    else WriteItemData(Reply(mode, r.output), req, Notice(t, msg))
  }

  /** End: a menu gets its terminating "." line; a document is sent as it is. */
  function EndReply(r: Reply): Reply
  {
    if r.mode == Menu then Reply(Menu, r.output + Terminator) else r
  }

  // ---------------------------------------------------------------------------
  // Properties of the reply

  /** The mode changes only from Undetermined: to Document by Write, to Menu by the item writes. */
  lemma ModeIsFixedByFirstWrite(r: Reply, req: Request, b: string, i: Item, t: ItemType, msg: string)
    ensures WriteData(r, b).0.mode == (if r.mode == Undetermined then Document else r.mode)
    ensures WriteItemData(r, req, i).0.mode == (if r.mode == Undetermined then Menu else r.mode)
    ensures WriteNoticeData(r, req, t, msg).0.mode == (if r.mode == Undetermined then Menu else r.mode)
    ensures EndReply(r).mode == r.mode
  {
  }

  /** Writes of the wrong kind fail and send nothing; writes of the right kind only append. */
  lemma WritesAppendOrFail(r: Reply, req: Request, b: string, i: Item)
    ensures r.mode == Menu ==> WriteData(r, b) == (r, Some(DocumentDataToMenu))
    ensures r.mode == Document ==> WriteItemData(r, req, i) == (r, Some(MenuDataToDocument))
    ensures r.mode != Menu ==> WriteData(r, b).0.output == r.output + b && WriteData(r, b).1.None?
    ensures r.mode != Document ==>
      WriteItemData(r, req, i).0.output == r.output + Marshal(WithLocalAddress(i, req))
  {
  }

  /** A notice in a document is its bare message and never fails. */
  lemma NoticeInDocument(r: Reply, req: Request, t: ItemType, msg: string)
    requires r.mode == Document
    ensures WriteNoticeData(r, req, t, msg) == (Reply(Document, r.output + msg), None)
  {
  }

  /** End adds exactly the terminator line, and only to a menu. */
  lemma EndAddsTerminatorOnlyToMenus(r: Reply)
    ensures r.mode == Menu ==> EndReply(r).output == r.output + ".\r\n"
    ensures r.mode != Menu ==> EndReply(r).output == r.output
  {
  }

  /** The reply after writing `items` one by one with WriteItem, and the first error if any. */
  function WriteItemsData(r: Reply, req: Request, items: seq<Item>): (Reply, Option<WriterError>)
    decreases |items|
  {
    if |items| == 0 then (r, None)
    else
      var (next, err) := WriteItemData(r, req, items[0]);
      if err.Some? then (next, err) else WriteItemsData(next, req, items[1..])
  }

  /** The items as the server sends them: each with the local address filled in where it had none. */
  function Sent(items: seq<Item>, req: Request): seq<Item>
    decreases |items|
  {
    if |items| == 0 then [] else [WithLocalAddress(items[0], req)] + Sent(items[1..], req)
  }

  /** Each item is sent in its place, with the local address filled in where it had none. */
  lemma {:induction false} SentItems(items: seq<Item>, req: Request)
    ensures |Sent(items, req)| == |items|
    ensures forall k :: 0 <= k < |items| ==> Sent(items, req)[k] == WithLocalAddress(items[k], req)
    decreases |items|
  {
    if |items| > 0 {
      SentItems(items[1..], req);
      forall k | 0 <= k < |items|
        ensures Sent(items, req)[k] == WithLocalAddress(items[k], req)
      {
        if k > 0 {
          assert Sent(items, req)[k] == Sent(items[1..], req)[k - 1];
          assert items[1..][k - 1] == items[k];
        }
      }
    }
  }

  /** Writing items to a reply that is not a document sends their menu lines, in order, and never fails. */
  lemma {:induction false} WriteItemsSendsMenu(r: Reply, req: Request, items: seq<Item>)
    requires r.mode != Document
    ensures WriteItemsData(r, req, items).1.None?
    ensures WriteItemsData(r, req, items).0.output == r.output + MenuText(Sent(items, req))
    ensures WriteItemsData(r, req, items).0.mode == if |items| == 0 then r.mode else Menu
    decreases |items|
  {
    if |items| == 0 {
      assert Sent(items, req) == [];
      assert r.output + "" == r.output;
    } else {
      var line := Marshal(WithLocalAddress(items[0], req));
      var next := Reply(Menu, r.output + line);
      var tail := MenuText(Sent(items[1..], req));
      assert WriteItemsData(r, req, items) == WriteItemsData(next, req, items[1..]) by {
        WriteItemsStep(r, req, items);
      }
      WriteItemsSendsMenu(next, req, items[1..]);
      assert MenuText(Sent(items, req)) == line + tail by {
        MenuTextCons(WithLocalAddress(items[0], req), Sent(items[1..], req));
      }
      assert (r.output + line) + tail == r.output + (line + tail);
    }
  }

  /** Outside a document, the first item's line is appended and the writes go on with the rest. */
  lemma WriteItemsStep(r: Reply, req: Request, items: seq<Item>)
    requires r.mode != Document && |items| > 0
    ensures WriteItemsData(r, req, items)
         == WriteItemsData(Reply(Menu, r.output + Marshal(WithLocalAddress(items[0], req))), req, items[1..])
  {
    assert WriteItemData(r, req, items[0]).1.None?;
  }

  // ---------------------------------------------------------------------------
  // The writer object

  /** response: the request it answers, the mode and the bytes sent so far. */
  class ResponseWriter {
    const req: Request
    var mode: Mode
    var output: string
    var closed: bool

    function State(): Reply
      reads this
    {
      Reply(mode, output)
    }

    constructor (req: Request)
      ensures this.req == req && State() == Fresh && !closed
    {
      this.req := req;
      mode := Undetermined;
      output := "";
      closed := false;
    }

    /** Write: sends document data; the buffered writer is taken to accept every byte. */
    method Write(b: string) returns (n: nat, err: Option<WriterError>)
      modifies this
      ensures (State(), err) == WriteData(old(State()), b)
      ensures n == (if err.None? then |b| else 0)
      ensures closed == old(closed)
    {
      if mode == Undetermined {
        mode := Document;
      }
      if mode != Document {
        return 0, Some(DocumentDataToMenu);
      }
      output := output + b;
      n, err := |b|, None;
    }

    /**
     * WriteItem: sends one menu line. The source also stores the filled-in address back into
     * the caller's item; `sent` is the item as the caller sees it afterwards.
     */
    method WriteItem(i: Item) returns (err: Option<WriterError>, sent: Item)
      modifies this
      ensures (State(), err) == WriteItemData(old(State()), req, i)
      ensures sent == (if err.None? then WithLocalAddress(i, req) else i)
      ensures closed == old(closed)
    {
      if mode == Undetermined {
        mode := Menu;
      }
      if mode != Menu {
        return Some(MenuDataToDocument), i;
      }
      sent := i;
      if sent.host == "" && sent.port == 0 {
        sent := sent.(host := req.localHost, port := req.localPort);
      }
      var b := MarshalText(sent);
      output := output + b;
      err := None;
    }

    /** WriteInfo: an informational line in a menu, the bare message in a document. */
    method WriteInfo(msg: string) returns (err: Option<WriterError>)
      modifies this
      ensures (State(), err) == WriteNoticeData(old(State()), req, InfoType, msg)
      ensures closed == old(closed)
    {
      err := WriteNotice(InfoType, msg);
    }

    /** WriteError: an error line in a menu, the bare message in a document. */
    method WriteError(msg: string) returns (err: Option<WriterError>)
      modifies this
      ensures (State(), err) == WriteNoticeData(old(State()), req, ErrorType, msg)
      ensures closed == old(closed)
    {
      err := WriteNotice(ErrorType, msg);
    }

    method WriteNotice(t: ItemType, msg: string) returns (err: Option<WriterError>)
      modifies this
      ensures (State(), err) == WriteNoticeData(old(State()), req, t, msg)
      ensures closed == old(closed)
    {
      if mode == Undetermined {
        mode := Menu;
      }
      if mode != Menu {
        output := output + msg;
        return None;
      }
      var sent;
      err, sent := WriteItem(Notice(t, msg));
    }

    /** NotFound: the error line "resource not found". */
    method NotFound() returns (err: Option<WriterError>)
      modifies this
      ensures (State(), err) == WriteNoticeData(old(State()), req, ErrorType, "resource not found")
      ensures closed == old(closed)
    {
      err := WriteError("resource not found");
    }

    /** End: terminates a menu, then flushes and closes the connection. */
    method End()
      modifies this
      ensures State() == EndReply(old(State()))
      ensures closed
    {
      if mode == Menu {
        output := output + Terminator;
      }
      closed := true;
    }
  }
}
