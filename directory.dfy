/** Directory of gopher.go: a menu, that is an ordered sequence of items, and its wire text. */
module Directories {
  import opened Text
  import opened Items

  /** Items in the order a client displays them. */
  datatype Directory = Directory(items: seq<Item>)

  /** The byte that, alone on a line, ends a menu. */
  const End: char := '.'

  /** The line that ends a menu on the wire. */
  const Terminator: string := [End] + CRLF

  /** The items' lines in order, each with its CRLF, and no terminator. */
  function MenuText(items: seq<Item>): string
    decreases |items|
  {
    if |items| == 0 then "" else MenuText(items[..|items| - 1]) + Marshal(items[|items| - 1])
  }

  /** ToText: appends each item's MarshalText to a buffer, in order. */
  method ToText(d: Directory) returns (b: string)
    ensures b == MenuText(d.items)
  {
    b := "";
    var k := 0;
    while k < |d.items|
      invariant 0 <= k <= |d.items|
      invariant b == MenuText(d.items[..k])
    {
      var line := MarshalText(d.items[k]);
      assert d.items[..k + 1][..k] == d.items[..k];
      b := b + line;
      k := k + 1;
    }
    assert d.items[..|d.items|] == d.items;
  }

  /** The menu text of a non-empty list starts with its first item's line. */
  lemma {:induction false} MenuTextCons(x: Item, rest: seq<Item>)
    ensures MenuText([x] + rest) == Marshal(x) + MenuText(rest)
    decreases |rest|
  {
    if |rest| == 0 {
      assert ([x] + rest)[..0] == [];
    } else {
      var all := [x] + rest;
      var init, last := rest[..|rest| - 1], rest[|rest| - 1];
      assert all[..|all| - 1] == [x] + init;
      assert all[|all| - 1] == last;
      MenuTextCons(x, init);
      assert MenuText(all) == MenuText([x] + init) + Marshal(last);
      assert MenuText(rest) == MenuText(init) + Marshal(last);
    }
  }

  /** Menu text is a homomorphism from concatenation of item lists to concatenation of text. */
  lemma {:induction false} MenuTextAppend(a: seq<Item>, b: seq<Item>)
    ensures MenuText(a + b) == MenuText(a) + MenuText(b)
    decreases |b|
  {
    if |b| == 0 {
      assert a + b == a;
    } else {
      var init, last := b[..|b| - 1], b[|b| - 1];
      var ab := a + b;
      assert MenuText(ab) == MenuText(a + init) + Marshal(last) by {
        assert ab[..|ab| - 1] == a + init;
        assert ab[|ab| - 1] == last;
      }
      assert MenuText(b) == MenuText(init) + Marshal(last);
      MenuTextAppend(a, init);
      assert MenuText(a) + MenuText(init) + Marshal(last) == MenuText(a) + (MenuText(init) + Marshal(last));
    }
  }

  /** The lines of a menu, without their CRLF. */
  function MenuLines(items: seq<Item>): (lines: seq<string>)
    ensures |lines| == |items|
    ensures forall k :: 0 <= k < |items| ==> lines[k] == ItemLine(items[k])
  {
    seq(|items|, k requires 0 <= k < |items| => ItemLine(items[k]))
  }

  /** Menu text is the items' lines, each followed by CRLF. */
  lemma {:induction false} MenuTextIsLines(items: seq<Item>)
    ensures MenuText(items) == CrlfLines(MenuLines(items))
    decreases |items|
  {
    if |items| > 0 {
      var x, tail := items[0], items[1..];
      assert MenuText(items) == Marshal(x) + MenuText(tail) by {
        assert items == [x] + tail;
        MenuTextCons(x, tail);
      }
      MenuTextIsLines(tail);
      var lines := MenuLines(items);
      assert lines[0] == ItemLine(x);
      assert lines[1..] == MenuLines(tail);
      assert CrlfLines(lines) == ItemLine(x) + CRLF + CrlfLines(MenuLines(tail));
    }
  }
}
