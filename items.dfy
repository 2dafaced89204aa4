/**
 * Item codec of gopher.go: one menu line of RFC 1436
 *   <type><description> TAB <selector> TAB <host> TAB <port> (TAB <extra>)* CRLF
 * parsed into an Item and written back.
 */
module Items {
  import opened Wrappers
  import opened Text

  /** One byte naming what an item points to. */
  type ItemType = char

  const FileType: ItemType := '0'
  const DirectoryType: ItemType := '1'
  const PhonebookType: ItemType := '2'
  const ErrorType: ItemType := '3'
  const BinHexType: ItemType := '4'
  const DosArchiveType: ItemType := '5'
  const UuencodedType: ItemType := '6'
  const IndexSearchType: ItemType := '7'
  const TelnetType: ItemType := '8'
  const BinaryType: ItemType := '9'
  const RedundantType: ItemType := '+'
  const Tn3270Type: ItemType := 'T'
  const GifType: ItemType := 'g'
  const ImageType: ItemType := 'I'
  // non-standard
  const InfoType: ItemType := 'i'
  const HtmlType: ItemType := 'h'
  const AudioType: ItemType := 's'
  const PngType: ItemType := 'p'
  const DocType: ItemType := 'd'

  /** The type used when nothing better is known. */
  const DefaultType: ItemType := BinaryType

  const KnownTypes: set<ItemType> :=
    {FileType, DirectoryType, PhonebookType, ErrorType, BinHexType, DosArchiveType, UuencodedType,
     IndexSearchType, TelnetType, BinaryType, RedundantType, Tn3270Type, GifType, ImageType,
     InfoType, HtmlType, AudioType, PngType, DocType}

  /** Host written when a line has no host field. */
  const NullHost: string := "null.host"

  /** Host and port of info and error lines, which point nowhere. */
  const ErrorHost: string := "error.host"
  const ErrorPort: int := 1

  /** A three-letter label for a type (ItemType.String), "???" for an unknown byte. */
  function TypeName(t: ItemType): (name: string)
    ensures |name| == 3
    ensures name == "???" <==> t !in KnownTypes
  {
    if t == FileType then "TXT"
    else if t == DirectoryType then "DIR"
    else if t == PhonebookType then "PHO"
    else if t == ErrorType then "ERR"
    else if t == BinHexType then "HEX"
    else if t == DosArchiveType then "ARC"
    else if t == UuencodedType then "UUE"
    else if t == IndexSearchType then "QRY"
    else if t == TelnetType then "TEL"
    else if t == BinaryType then "BIN"
    else if t == RedundantType then "DUP"
    else if t == Tn3270Type then "TN3"
    else if t == GifType then "GIF"
    else if t == ImageType then "IMG"
    else if t == InfoType then "NFO"
    else if t == HtmlType then "HTM"
    else if t == AudioType then "SND"
    else if t == PngType then "PNG"
    else if t == DocType then "DOC"
    else "???"
  }

  /** Known types have pairwise different labels. */
  lemma TypeNamesDistinct(s: ItemType, t: ItemType)
    requires s in KnownTypes && t in KnownTypes && s != t
    ensures TypeName(s) != TypeName(t)
  {
  }

  /** Fetching an item of this type yields a menu rather than a document. */
  predicate IsDirectoryLike(t: ItemType)
  {
    t == DirectoryType || t == IndexSearchType
  }

  datatype Item = Item(
    itemType: ItemType,
    description: string,
    selector: string,
    host: string,
    port: int,
    extras: seq<string>)  // non-standard trailing fields

  datatype ParseError = NoItemType(line: string) | BadPort(field: string)

  // ---------------------------------------------------------------------------
  // Parsing

  /** The tab-separated fields of a line once CR and LF are trimmed from both ends. */
  function Fields(line: string): (parts: seq<string>)
    ensures |parts| >= 1
  {
    Split(TrimLineEnds(line), TAB)
  }

  /** What ParseItem returns for `line`. */
  function Parse(line: string): Result<Item, ParseError>
  {
    ItemOfFields(line, Fields(line))
  }

  /** ParseItem's reading of a line's fields: the type byte, the defaults, the port rule, the extras. */
  function ItemOfFields(line: string, parts: seq<string>): Result<Item, ParseError>
    requires |parts| >= 1
  {
    if |parts[0]| < 1 then Failure(NoItemType(line))
    else
      var t := parts[0][0];
      var port := if |parts| > 3 then Atoi(parts[3]) else Some(0);
      if port.None? && t != InfoType then Failure(BadPort(parts[3]))
      else
        Success(Item(t, parts[0][1..],
                     if |parts| > 1 then parts[1] else "",
                     if |parts| > 2 then parts[2] else NullHost,
                     port.GetOr(0),
                     if |parts| > 4 then parts[4..] else []))
  }

  /**
   * A line is refused for lacking an item type exactly when, once trimmed, it is empty or
   * starts with a TAB; an accepted line's type is its first byte after trimming.
   */
  lemma ParseItemType(line: string)
    ensures var r, t := Parse(line), TrimLineEnds(line);
      && ((r.Failure? && r.error.NoItemType?) <==> (t == "" || t[0] == TAB))
      && (r.Success? ==> |t| > 0 && r.value.itemType == t[0])
  {
    var t := TrimLineEnds(line);
    var parts := Fields(line);
    assert parts[0] == t[..IndexOf(t, TAB)];
  }

  /** ParseItem: trims the line, splits it on TAB, then reads the fields. */
  method ParseItem(line: string) returns (r: Result<Item, ParseError>)
    ensures r == Parse(line)
  {
    var parts := Split(TrimLineEnds(line), TAB);
    r := ReadFields(line, parts);
  }

  /** ParseItem's second half: fills in the item field by field, then appends the extras one at a time. */
  method ReadFields(line: string, parts: seq<string>) returns (r: Result<Item, ParseError>)
    requires |parts| >= 1
    ensures r == ItemOfFields(line, parts)
  {
    if |parts[0]| < 1 {
      return Failure(NoItemType(line));
    }
    var t := parts[0][0];
    var description := parts[0][1..];
    var selector := "";
    if |parts| > 1 {
      selector := parts[1];
    }
    var host := NullHost;
    if |parts| > 2 {
      host := parts[2];
    }
    var port := 0;
    if |parts| > 3 {
      var n := Atoi(parts[3]);
      if n.None? {
        if t != InfoType {
          return Failure(BadPort(parts[3]));
        }
        port := 0;
      } else {
        port := n.value;
      }
    }
    assert port == (if |parts| > 3 then Atoi(parts[3]) else Some(0)).GetOr(0);
    var extras: seq<string> := [];
    if |parts| >= 4 {
      var k := 4;
      while k < |parts|
        invariant 4 <= k <= |parts|
        invariant extras == parts[4..k]
      {
        extras := extras + [parts[k]];
        k := k + 1;
      }
    }
    assert extras == if |parts| > 4 then parts[4..] else [];
    r := Success(Item(t, description, selector, host, port, extras));
  }

  // ---------------------------------------------------------------------------
  // Writing

  /** The fields MarshalText writes, in order. */
  function ItemFields(i: Item): seq<string>
  {
    [[i.itemType] + i.description, i.selector, i.host, Itoa(i.port)] + i.extras
  }

  /** The wire text of an item without its CRLF. */
  function ItemLine(i: Item): string
  {
    Join(ItemFields(i), TAB)
  }

  /** What MarshalText returns. */
  function Marshal(i: Item): string
  {
    ItemLine(i) + CRLF
  }

  /** MarshalText: appends the type byte and the fields to a buffer one piece at a time. */
  method MarshalText(i: Item) returns (b: string)
    ensures b == Marshal(i)
  {
    ghost var fields := ItemFields(i);
    b := [i.itemType];
    b := b + i.description;
    b := b + [TAB];
    b := b + i.selector;
    b := b + [TAB];
    b := b + i.host;
    b := b + [TAB];
    b := b + Itoa(i.port);
    assert fields[..4] == [[i.itemType] + i.description, i.selector, i.host, Itoa(i.port)];
    JoinFour([i.itemType] + i.description, i.selector, i.host, Itoa(i.port));
    var k := 0;
    while k < |i.extras|
      invariant 0 <= k <= |i.extras|
      invariant b == Join(fields[..4 + k], TAB)
    {
      assert fields[..4 + k + 1] == fields[..4 + k] + [i.extras[k]];
      JoinSnoc(fields[..4 + k], i.extras[k], TAB);
      b := b + [TAB];
      b := b + i.extras[k];
      k := k + 1;
    }
    assert fields[..4 + |i.extras|] == fields;
    b := b + CRLF;
  }

  // ---------------------------------------------------------------------------
  // Round trip

  /** Whether a line ends in a character that trimming would remove. */
  predicate EndsInLineEnd(s: string)
  {
    |s| > 0 && IsLineEnd(s[|s| - 1])
  }

  /**
   * Items that survive a write and a parse unchanged: no field holds a TAB, the type byte
   * is not a TAB, CR or LF, and the last extra (if any) does not end in CR or LF.
   */
  predicate WellFormed(i: Item)
  {
    && i.itemType != TAB && !IsLineEnd(i.itemType)
    && TAB !in i.description && TAB !in i.selector && TAB !in i.host
    && (forall k :: 0 <= k < |i.extras| ==> TAB !in i.extras[k])
    && (|i.extras| > 0 ==> !EndsInLineEnd(i.extras[|i.extras| - 1]))
  }

  lemma JoinThree(a: string, b: string, c: string)
    ensures Join([a, b, c], TAB) == a + [TAB] + b + [TAB] + c
  {
    JoinCons(b, [c], TAB);
    JoinCons(a, [b, c], TAB);
  }

  lemma JoinFour(a: string, b: string, c: string, d: string)
    ensures Join([a, b, c, d], TAB) == a + [TAB] + b + [TAB] + c + [TAB] + d
  {
    JoinThree(b, c, d);
    JoinCons(a, [b, c, d], TAB);
  }

  /** The last piece of a join of two or more pieces comes after the last separator. */
  lemma JoinLast(parts: seq<string>, sep: char)
    requires |parts| >= 2
    ensures Join(parts, sep) == Join(parts[..|parts| - 1], sep) + [sep] + parts[|parts| - 1]
  {
    assert parts == parts[..|parts| - 1] + [parts[|parts| - 1]];
    JoinSnoc(parts[..|parts| - 1], parts[|parts| - 1], TAB);
    JoinSnoc(parts[..|parts| - 1], parts[|parts| - 1], sep);
  }

  /** A well-formed item's line neither starts nor ends with CR or LF, and holds no stray TAB. */
  lemma ItemLineShape(i: Item)
    requires WellFormed(i)
    ensures |ItemLine(i)| > 0 && !IsLineEnd(ItemLine(i)[0]) && !EndsInLineEnd(ItemLine(i))
    ensures forall k :: 0 <= k < |ItemFields(i)| ==> TAB !in ItemFields(i)[k]
  {
    var f := ItemFields(i);
    var line := ItemLine(i);
    assert line == f[0] + [TAB] + Join(f[1..], TAB);
    JoinLast(f, TAB);
    var last := f[|f| - 1];
    assert line[|line| - 1] == (if last == "" then TAB else last[|last| - 1]);
    forall k | 0 <= k < |f|
      ensures TAB !in f[k]
    {
      if k == 3 {
        assert forall j :: 0 <= j < |Itoa(i.port)| ==> Itoa(i.port)[j] != TAB;
      } else if k > 3 {
        assert f[k] == i.extras[k - 4];
      }
    }
  }

  /** Parse undoes Marshal for every well-formed item. */
  lemma {:induction false} ParseMarshal(i: Item)
    requires WellFormed(i)
    ensures Parse(Marshal(i)) == Success(i)
  {
    ItemLineShape(i);
    TrimAppendedEnds(ItemLine(i), CRLF);
    SplitOfJoin(ItemFields(i), TAB);
    var parts := Fields(Marshal(i));
    assert parts == ItemFields(i);
    AtoiOfItoa(i.port);
    assert parts[4..] == i.extras;
  }

  /** The line of a well-formed item, without its CRLF, parses back into the item too. */
  lemma {:induction false} ParseItemLine(i: Item)
    requires WellFormed(i)
    ensures Parse(ItemLine(i)) == Success(i)
  {
    ItemLineShape(i);
    TrimAppendedEnds(ItemLine(i), "");
    assert ItemLine(i) + "" == ItemLine(i);
    SplitOfJoin(ItemFields(i), TAB);
    var parts := Fields(ItemLine(i));
    assert parts == ItemFields(i);
    AtoiOfItoa(i.port);
    assert parts[4..] == i.extras;
  }

  /** Everything Parse accepts is well formed. */
  lemma ParsedIsWellFormed(line: string)
    requires Parse(line).Success?
    ensures WellFormed(Parse(line).value)
  {
    var t := TrimLineEnds(line);
    var parts := Split(t, TAB);
    SplitSpec(t, TAB);
    TrimLineEndsClean(line);
    if |parts[0]| > 0 {
      JoinFirstChar(parts, TAB);
    }
    if |parts[|parts| - 1]| > 0 {
      JoinLastChar(parts, TAB);
    }
    FieldsReadWellFormed(line, parts);
  }

  /**
   * Reading TAB-free fields gives a well-formed item when the line does not start with CR
   * or LF and its last field does not end with one.
   */
  lemma FieldsReadWellFormed(line: string, parts: seq<string>)
    requires |parts| >= 1 && forall k :: 0 <= k < |parts| ==> TAB !in parts[k]
    requires |parts[0]| > 0 ==> !IsLineEnd(parts[0][0])
    requires !EndsInLineEnd(parts[|parts| - 1])
    requires ItemOfFields(line, parts).Success?
    ensures WellFormed(ItemOfFields(line, parts).value)
  {
    if |parts| > 4 {
      var extras := parts[4..];
      forall k | 0 <= k < |extras|
        ensures TAB !in extras[k]
      {
        assert extras[k] == parts[k + 4];
      }
    }
  }

  /** Writing a parsed item and parsing it again gives the same item (so re-encoding is stable). */
  lemma ReparseIsStable(line: string)
    requires Parse(line).Success?
    ensures Parse(Marshal(Parse(line).value)) == Parse(line)
  {
    ParsedIsWellFormed(line);
    ParseMarshal(Parse(line).value);
  }

  /** A line made of TAB-free fields with no CR or LF at either end splits back into those fields. */
  lemma FieldsOfCleanJoin(parts: seq<string>)
    requires |parts| >= 1 && forall k :: 0 <= k < |parts| ==> TAB !in parts[k]
    requires var s := Join(parts, TAB); s == "" || (!IsLineEnd(s[0]) && !EndsInLineEnd(s))
    ensures Fields(Join(parts, TAB)) == parts
  {
    var s := Join(parts, TAB);
    assert s == "" || (!IsLineEnd(s[0]) && !IsLineEnd(s[|s| - 1]));
    TrimLineEndsOfClean(s);
    SplitOfJoin(parts, TAB);
    assert Fields(s) == Split(s, TAB);
  }

  lemma ParseOneField(head: string)
    requires |head| > 0 && !IsLineEnd(head[0]) && !EndsInLineEnd(head) && TAB !in head
    ensures Parse(head) == Success(Item(head[0], head[1..], "", NullHost, 0, []))
  {
    FieldsOfCleanJoin([head]);
  }

  lemma ParseTwoFields(head: string, selector: string)
    requires |head| > 0 && !IsLineEnd(head[0]) && TAB !in head
    requires TAB !in selector && !EndsInLineEnd(selector)
    ensures Parse(head + [TAB] + selector) == Success(Item(head[0], head[1..], selector, NullHost, 0, []))
  {
    JoinCons(head, [selector], TAB);
    FieldsOfCleanJoin([head, selector]);
  }

  lemma ParseThreeFields(head: string, selector: string, host: string)
    requires |head| > 0 && !IsLineEnd(head[0]) && TAB !in head
    requires TAB !in selector && TAB !in host && !EndsInLineEnd(host)
    ensures Parse(head + [TAB] + selector + [TAB] + host) == Success(Item(head[0], head[1..], selector, host, 0, []))
  {
    JoinThree(head, selector, host);
    FieldsOfCleanJoin([head, selector, host]);
  }

  /**
   * Missing trailing fields get their defaults: a line of one, two or three fields has
   * port 0, no extras, host "null.host" unless given, selector "" unless given.
   */
  lemma ParseDefaults(head: string, selector: string, host: string)
    requires |head| > 0 && !IsLineEnd(head[0]) && !EndsInLineEnd(head) && TAB !in head
    requires TAB !in selector && !EndsInLineEnd(selector)
    requires TAB !in host && !EndsInLineEnd(host)
    ensures Parse(head) == Success(Item(head[0], head[1..], "", NullHost, 0, []))
    ensures Parse(head + [TAB] + selector) == Success(Item(head[0], head[1..], selector, NullHost, 0, []))
    ensures Parse(head + [TAB] + selector + [TAB] + host) == Success(Item(head[0], head[1..], selector, host, 0, []))
  {
    ParseOneField(head);
    ParseTwoFields(head, selector);
    ParseThreeFields(head, selector, host);
  }

  /**
   * The port rule for every line: the parse fails on the port exactly when the line has a
   * fourth field, that field is not a decimal number and the type is not INFO, and the
   * error names the field; an INFO line with such a field gets port 0, and a line of
   * fewer than four fields gets port 0 too.
   */
  lemma ParsePortRule(line: string)
    ensures var parts, r := Fields(line), Parse(line);
      && ((r.Failure? && r.error.BadPort?) <==>
          (|parts| > 3 && |parts[0]| > 0 && parts[0][0] != InfoType && Atoi(parts[3]).None?))
      && (r.Failure? && r.error.BadPort? ==> r.error.field == parts[3])
      && (r.Success? && |parts| > 3 ==> r.value.port == Atoi(parts[3]).GetOr(0))
      && (r.Success? && |parts| > 3 && Atoi(parts[3]).None? ==> r.value.itemType == InfoType && r.value.port == 0)
      && (r.Success? && |parts| <= 3 ==> r.value.port == 0)
  {
  }

  /**
   * A port field that is not a decimal number, the empty one included, fails the parse
   * whatever extras follow it, except on an info line, where the port is 0.
   */
  lemma ParseBadPort(parts: seq<string>)
    requires |parts| >= 4 && forall k :: 0 <= k < |parts| ==> TAB !in parts[k]
    requires |parts[0]| > 0 && !IsLineEnd(parts[0][0]) && !EndsInLineEnd(parts[|parts| - 1])
    requires Atoi(parts[3]).None?
    ensures parts[0][0] != InfoType ==> Parse(Join(parts, TAB)) == Failure(BadPort(parts[3]))
    ensures parts[0][0] == InfoType ==>
      Parse(Join(parts, TAB)) == Success(Item(InfoType, parts[0][1..], parts[1], parts[2], 0, parts[4..]))
  {
    var line := Join(parts, TAB);
    JoinOfCleanEnds(parts);
    FieldsOfCleanJoin(parts);
    assert Parse(line) == ItemOfFields(line, parts);
    if parts[0][0] != InfoType {
      assert ItemOfFields(line, parts) == Failure(BadPort(parts[3]));
    } else {
      assert (if |parts| > 4 then parts[4..] else []) == parts[4..];
      assert ItemOfFields(line, parts) == Success(Item(InfoType, parts[0][1..], parts[1], parts[2], 0, parts[4..]));
    }
  }

  /** Two or more pieces, the first starting and the last ending clean, join into a line with clean ends. */
  lemma JoinOfCleanEnds(parts: seq<string>)
    requires |parts| >= 2 && |parts[0]| > 0 && !IsLineEnd(parts[0][0]) && !EndsInLineEnd(parts[|parts| - 1])
    ensures var s := Join(parts, TAB); |s| > 0 && !IsLineEnd(s[0]) && !EndsInLineEnd(s)
  {
    var last := parts[|parts| - 1];
    JoinFirstChar(parts, TAB);
    JoinLast(parts, TAB);
    if |last| > 0 {
      JoinLastChar(parts, TAB);
    }
  }

  /** The four-field lines of the package's servers: a bad port fails the parse except on an info line. */
  lemma ParseBadPortField(head: string, selector: string, host: string, port: string)
    requires |head| > 0 && !IsLineEnd(head[0]) && TAB !in head
    requires TAB !in selector && TAB !in host && TAB !in port && !EndsInLineEnd(port)
    requires Atoi(port).None?
    ensures head[0] != InfoType ==>
      Parse(head + [TAB] + selector + [TAB] + host + [TAB] + port) == Failure(BadPort(port))
    ensures head[0] == InfoType ==>
      Parse(head + [TAB] + selector + [TAB] + host + [TAB] + port) ==
      Success(Item(InfoType, head[1..], selector, host, 0, []))
  {
    var parts := [head, selector, host, port];
    assert parts[0] == head && parts[1] == selector && parts[2] == host && parts[3] == port;
    assert parts[4..] == [];
    ParseBadPort(parts);
    JoinFour(head, selector, host, port);
  }

  /** An empty port field is no number: `0x\ts\th\t` fails on its port. */
  lemma EmptyPortFails()
    ensures Parse("0x\ts\th\t") == Failure(BadPort(""))
  {
    ParseBadPort(["0x", "s", "h", ""]);
    JoinFour("0x", "s", "h", "");
    assert "0x" + [TAB] + "s" + [TAB] + "h" + [TAB] + "" == "0x\ts\th\t";
  }

  /** An empty line has no type and fails; so does a line of nothing but CR and LF. */
  lemma ParseEmptyFails(line: string)
    requires AllLineEnds(line)
    ensures Parse(line) == Failure(NoItemType(line))
  {
    TrimAppendedEnds("", line);
    assert "" + line == line;
  }

  /** The item of the package's sample menu line. */
  const SampleItem: Item := Item(FileType, "foo", "/foo", "localhost", 70, [])

  lemma SampleItemText()
    ensures Marshal(SampleItem) == "0foo\t/foo\tlocalhost\t70\r\n"
  {
    assert ItemFields(SampleItem) == ["0foo", "/foo", "localhost", "70"] by {
      assert Itoa(70) == "70";
      assert [FileType] + "foo" == "0foo";
    }
    assert ItemLine(SampleItem) == "0foo\t/foo\tlocalhost\t70" by {
      JoinFour("0foo", "/foo", "localhost", "70");
    }
  }

  /** The sample line of the package's tests parses into the expected item and is written back byte for byte. */
  lemma SampleLineRoundTrip()
    ensures Parse("0foo\t/foo\tlocalhost\t70\r\n") == Success(SampleItem)
    ensures Marshal(SampleItem) == "0foo\t/foo\tlocalhost\t70\r\n"
  {
    SampleItemText();
    ParseMarshal(SampleItem);
  }

  /** The item the one-byte line "0" stands for: every field but the type takes its default. */
  const MinimalItem: Item := Item(FileType, "", "", NullHost, 0, [])

  lemma MinimalLineParses()
    ensures Parse("0") == Success(MinimalItem)
  {
    ParseOneField("0");
    assert "0"[1..] == "";
  }

  lemma MinimalItemText()
    ensures Marshal(MinimalItem) == "0\t\tnull.host\t0\r\n"
  {
    assert ItemFields(MinimalItem) == ["0", "", "null.host", "0"] by {
      assert Itoa(0) == "0";
      assert [FileType] + "" == "0";
    }
    assert ItemLine(MinimalItem) == "0\t\tnull.host\t0" by {
      JoinFour("0", "", "null.host", "0");
    }
  }

  /** The one-byte line "0" parses with every default, and re-encoding it is stable. */
  lemma MinimalLineIdempotent()
    ensures Parse("0") == Success(MinimalItem)
    ensures Marshal(MinimalItem) == "0\t\tnull.host\t0\r\n"
    ensures Parse(Marshal(MinimalItem)) == Parse("0")
  {
    MinimalLineParses();
    MinimalItemText();
    ParseMarshal(MinimalItem);
  }
}
