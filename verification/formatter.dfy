/**
 * `format_menu`: a menu dict becomes chat text, each category as its name
 * and a colon on one line, one bulleted line per item, and a blank line.
 * Items are taken as the strings Python's f-string renders for them.
 */
module Formatter {
  import opened Seqs
  import opened Dicts

  /** The four spaces, bullet and space that open every item line. */
  const BULLET: string := "    \U{2022} "

  /** The item lines of one category, each ending in a newline. */
  function ItemLines(items: seq<string>): string
  {
    if |items| == 0 then ""
    else
      var n := |items| - 1;
      ItemLines(items[..n]) + BULLET + items[n] + "\n"
  }

  /** The text of one category: its heading, its item lines and a blank line. */
  function Block(name: string, items: seq<string>): string
  {
    name + ":\n" + ItemLines(items) + "\n"
  }

  /** What `format_menu(menu)` returns: the blocks of the categories in dict order. */
  function MenuText(menu: Dict<seq<string>>): string
  {
    if |menu| == 0 then ""
    else
      var n := |menu| - 1;
      MenuText(menu[..n]) + Block(menu[n].0, menu[n].1)
  }

  /** `format_menu(menu_data)`, building the text piece by piece as the source does. */
  method FormatMenu(menu: Dict<seq<string>>) returns (text: string)
    ensures text == MenuText(menu)
  {
    text := "";
    for i := 0 to |menu|
      invariant text == MenuText(menu[..i])
    {
      var (category, items) := menu[i];
      assert menu[..i + 1][..i] == menu[..i];
      var head := MenuText(menu[..i]) + category + ":\n";
      text := text + category + ":\n";
      for j := 0 to |items|
        invariant text == head + ItemLines(items[..j])
      {
        assert items[..j + 1][..j] == items[..j];
        text := text + BULLET + items[j] + "\n";
      }
      assert items[..|items|] == items;
      text := text + "\n";
    }
    assert menu[..|menu|] == menu;
  }

  /** Formatting two runs of categories gives the text of the first, then that of the second. */
  lemma {:induction false} MenuTextAppend(a: Dict<seq<string>>, b: Dict<seq<string>>)
    ensures MenuText(a + b) == MenuText(a) + MenuText(b)
    decreases |b|
  {
    if |b| > 0 {
      var n := |b| - 1;
      assert (a + b)[..|a| + n] == a + b[..n];
      MenuTextAppend(a, b[..n]);
    } else {
      assert a + b == a;
    }
  }

  /** Every category contributes at least its heading, so only the empty menu gives "". */
  lemma MenuTextEmpty(menu: Dict<seq<string>>)
    ensures MenuText(menu) == "" <==> |menu| == 0
  {
    if |menu| > 0 {
      var n := |menu| - 1;
      assert |Block(menu[n].0, menu[n].1)| > 0;
    }
  }

  /** A non-empty text ends with the blank line closing its last category. */
  lemma MenuTextEnd(menu: Dict<seq<string>>)
    requires |menu| > 0
    ensures |MenuText(menu)| >= 2
    ensures MenuText(menu)[|MenuText(menu)| - 2..] == "\n\n"
  {
    var n := |menu| - 1;
    var (name, items) := menu[n];
    var b := Block(name, items);
    if |items| == 0 {
      assert b == name + ":\n" + "\n";
    } else {
      var m := |items| - 1;
      assert ItemLines(items) == ItemLines(items[..m]) + BULLET + items[m] + "\n";
    }
    assert b[|b| - 2..] == "\n\n";
    assert MenuText(menu) == MenuText(menu[..n]) + b;
  }

  // ---------------------------------------------------------------------------
  // Reading the text back: lines, then categories.
  // ---------------------------------------------------------------------------

  /** `s` holds no line break. */
  predicate OneLine(s: string) {
    '\n' !in s
  }

  /** Every category name and item fits on one line. */
  predicate LineSafe(menu: Dict<seq<string>>) {
    forall i :: 0 <= i < |menu| ==>
      OneLine(menu[i].0) && forall j :: 0 <= j < |menu[i].1| ==> OneLine(menu[i].1[j])
  }

  /** The lines `ls`, each followed by a newline. */
  function Terminated(ls: seq<string>): string
  {
    if |ls| == 0 then "" else ls[0] + "\n" + Terminated(ls[1..])
  }

  lemma {:induction false} TerminatedAppend(a: seq<string>, b: seq<string>)
    ensures Terminated(a + b) == Terminated(a) + Terminated(b)
    decreases |a|
  {
    if |a| > 0 {
      assert (a + b)[1..] == a[1..] + b;
      TerminatedAppend(a[1..], b);
    } else {
      assert a + b == b;
    }
  }

  /** The text of a newline-terminated string cut into its lines. */
  function SplitLines(s: string): (ls: seq<string>)
    decreases |s|
  {
    if |s| == 0 then []
    else
      var i := IndexOf(s, '\n');
      if i == |s| then [s] else [s[..i]] + SplitLines(s[i + 1..])
  }

  /** Cutting terminated lines at the newlines gives the lines back. */
  lemma {:induction false} SplitTerminated(ls: seq<string>)
    requires forall i :: 0 <= i < |ls| ==> OneLine(ls[i])
    ensures SplitLines(Terminated(ls)) == ls
    decreases |ls|
  {
    if |ls| > 0 {
      var rest := Terminated(ls[1..]);
      var s := ls[0] + "\n" + rest;
      IndexOfAppend(ls[0], "\n" + rest, '\n');
      assert s == ls[0] + ("\n" + rest);
      assert s[..|ls[0]|] == ls[0];
      assert s[|ls[0]| + 1..] == rest;
      SplitTerminated(ls[1..]);
      assert [ls[0]] + ls[1..] == ls;
    }
  }

  /** The item lines of a category, without their newlines. */
  function BulletLines(items: seq<string>): (ls: seq<string>)
    ensures |ls| == |items|
    ensures forall i :: 0 <= i < |items| ==> ls[i] == BULLET + items[i]
  {
    seq(|items|, i requires 0 <= i < |items| => BULLET + items[i])
  }

  /** The lines of one category. */
  function BlockLines(name: string, items: seq<string>): seq<string>
  {
    [name + ":"] + BulletLines(items) + [""]
  }

  /** The lines of a whole menu. */
  function MenuLines(menu: Dict<seq<string>>): seq<string>
  {
    if |menu| == 0 then [] else BlockLines(menu[0].0, menu[0].1) + MenuLines(menu[1..])
  }

  lemma {:induction false} ItemLinesTerminated(items: seq<string>)
    ensures ItemLines(items) == Terminated(BulletLines(items))
    decreases |items|
  {
    if |items| > 0 {
      var n := |items| - 1;
      ItemLinesTerminated(items[..n]);
      assert BulletLines(items) == BulletLines(items[..n]) + [BULLET + items[n]];
      TerminatedAppend(BulletLines(items[..n]), [BULLET + items[n]]);
    }
  }

  lemma BlockTerminated(name: string, items: seq<string>)
    ensures Block(name, items) == Terminated(BlockLines(name, items))
  {
    ItemLinesTerminated(items);
    TerminatedAppend([name + ":"], BulletLines(items) + [""]);
    TerminatedAppend(BulletLines(items), [""]);
    assert BlockLines(name, items) == [name + ":"] + (BulletLines(items) + [""]);
  }

  /** The text `format_menu` builds is the menu's lines, each terminated. */
  lemma {:induction false} MenuTextLines(menu: Dict<seq<string>>)
    ensures MenuText(menu) == Terminated(MenuLines(menu))
    decreases |menu|
  {
    if |menu| > 0 {
      var rest := menu[1..];
      MenuTextLines(rest);
      MenuTextAppend([menu[0]], rest);
      assert [menu[0]] + rest == menu;
      assert MenuText([menu[0]]) == Block(menu[0].0, menu[0].1) by {
        assert [menu[0]][..0] == [];
      }
      BlockTerminated(menu[0].0, menu[0].1);
      TerminatedAppend(BlockLines(menu[0].0, menu[0].1), MenuLines(rest));
    }
  }

  /** `s` with its first `n` characters removed (all of it when it is shorter). */
  function DropPrefix(s: string, n: nat): string
  {
    if n <= |s| then s[n..] else []
  }

  /** `s` without a final `:`. */
  function Heading(s: string): string
  {
    if |s| > 0 && s[|s| - 1] == ':' then s[..|s| - 1] else s
  }

  /**
   * Reads categories back from lines: a heading line, bulleted lines up to
   * the next blank line, and so on.
   */
  function Unformat(ls: seq<string>): Dict<seq<string>>
    decreases |ls|
  {
    if |ls| == 0 then []
    else
      var k := IndexOf(ls[1..], "");
      var items := seq(k, i requires 0 <= i < k => DropPrefix(ls[1..][i], |BULLET|));
      var next := if 1 + k < |ls| then ls[2 + k..] else [];
      [(Heading(ls[0]), items)] + Unformat(next)
  }

  lemma UnformatBlock(name: string, items: seq<string>, rest: seq<string>)
    ensures Unformat(BlockLines(name, items) + rest) == [(name, items)] + Unformat(rest)
  {
    var ls := BlockLines(name, items) + rest;
    var bl := BulletLines(items);
    assert ls[1..] == bl + ([""] + rest);
    assert forall i :: 0 <= i < |bl| ==> bl[i] != "";
    IndexOfAppend(bl, [""] + rest, "");
    var k := IndexOf(ls[1..], "");
    assert k == |items|;
    assert ls[2 + k..] == rest;
    var got := seq(k, i requires 0 <= i < k => DropPrefix(ls[1..][i], |BULLET|));
    assert forall i :: 0 <= i < k ==> ls[1..][i] == BULLET + items[i];
    assert got == items;
    assert Heading(ls[0]) == name by {
      assert ls[0] == name + ":";
    }
  }

  /** Reading the lines of a menu back gives the menu. */
  lemma {:induction false} UnformatLines(menu: Dict<seq<string>>)
    ensures Unformat(MenuLines(menu)) == menu
    decreases |menu|
  {
    if |menu| > 0 {
      UnformatBlock(menu[0].0, menu[0].1, MenuLines(menu[1..]));
      UnformatLines(menu[1..]);
      assert [menu[0]] + menu[1..] == menu;
    }
  }

  lemma {:induction false} MenuLinesOneLine(menu: Dict<seq<string>>)
    requires LineSafe(menu)
    ensures forall i :: 0 <= i < |MenuLines(menu)| ==> OneLine(MenuLines(menu)[i])
    decreases |menu|
  {
    if |menu| > 0 {
      var (name, items) := menu[0];
      assert LineSafe(menu[1..]) by {
        assert forall i :: 0 <= i < |menu| - 1 ==> menu[1..][i] == menu[i + 1];
      }
      MenuLinesOneLine(menu[1..]);
      var bl := BlockLines(name, items);
      assert OneLine(name + ":") by {
        assert OneLine(name);
      }
      forall i | 0 <= i < |items|
        ensures OneLine(BULLET + items[i])
      {
        assert OneLine(items[i]);
      }
      assert forall i :: 0 <= i < |bl| ==> OneLine(bl[i]);
    }
  }

  /**
   * When no category name or item contains a line break, the text
   * `format_menu` produces determines the menu: cutting it into lines and
   * reading the categories back gives the menu it was made from.
   */
  lemma FormatRoundTrip(menu: Dict<seq<string>>)
    requires LineSafe(menu)
    ensures Unformat(SplitLines(MenuText(menu))) == menu
  {
    MenuTextLines(menu);
    MenuLinesOneLine(menu);
    SplitTerminated(MenuLines(menu));
    UnformatLines(menu);
  }
}
