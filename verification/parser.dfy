/**
 * `parse_menu`: the item panel of a menu, already split into its
 * `div.dining-menu-category` blocks, becomes a dict from each category name
 * (the stripped `h4` text) to the list of its dishes, one `{dish, diets}`
 * record per `li`, in document order.
 */
module MenuParser {
  import opened Wrappers
  import opened Seqs
  import opened Text
  import opened Dicts

  /**
   * One `li` of a category: the text of its first `a` (None when it has
   * none), and for each of its `img` elements the `alt` attribute (None
   * when the image has none).
   */
  datatype Li = Li(a: Option<string>, imgAlts: seq<Option<string>>)

  /** One category block: the text of its `h4` (None when it has none) and its `li`s. */
  datatype CategoryDiv = CategoryDiv(h4: Option<string>, lis: seq<Li>)

  /** The record `{"dish": ..., "diets": [...]}` built for one `li`. */
  datatype Dish = Dish(dish: string, diets: seq<string>)

  /**
   * The attribute errors that abort the parse: `category.h4.text` on a
   * category without `h4`, `item.a.text` on an item without `a`.
   */
  datatype ParseError = NoHeading | NoLink

  type Menu = Dict<seq<Dish>>

  /** `[icon['alt'] for icon in item.find_all("img", alt=True)]`: the alts present, in order. */
  function Alts(imgAlts: seq<Option<string>>): seq<string>
  {
    FilterMap(imgAlts, (alt: Option<string>) => alt)
  }

  /** An alt is listed exactly when some image carries it; there are no more alts than images. */
  lemma AltsSpec(imgAlts: seq<Option<string>>, x: string)
    ensures x in Alts(imgAlts) <==> Some(x) in imgAlts
    ensures |Alts(imgAlts)| <= |imgAlts|
  {
    FilterMapSpec(imgAlts, (alt: Option<string>) => alt, x);
  }

  /** The alts of two runs of images are those of the first run, then those of the second. */
  lemma AltsAppend(a: seq<Option<string>>, b: seq<Option<string>>)
    ensures Alts(a + b) == Alts(a) + Alts(b)
  {
    FilterMapAppend(a, b, (alt: Option<string>) => alt);
  }

  /** The record for one `li`, or the error reading it raises. */
  function DishOf(li: Li): (r: Result<Dish, ParseError>)
    ensures r.Ok? <==> li.a.Some?
    ensures r.Ok? ==> r.value.dish == Strip(li.a.value) && r.value.diets == Alts(li.imgAlts)
    ensures r.Err? ==> r.error == NoLink
  {
    match li.a
    case None => Err(NoLink)
    case Some(t) => Ok(Dish(Strip(t), Alts(li.imgAlts)))
  }

  /** The `items_list` built for a category: one record per `li`, or the first `li`'s error. */
  function DishList(lis: seq<Li>): (r: Result<seq<Dish>, ParseError>)
    ensures r.Ok? <==> forall i :: 0 <= i < |lis| ==> lis[i].a.Some?
    ensures r.Ok? ==> |r.value| == |lis|
    ensures r.Err? ==> r.error == NoLink
  {
    if |lis| == 0 then Ok([])
    else
      var n := |lis| - 1;
      match DishList(lis[..n])
      case Err(e) => Err(e)
      case Ok(ds) =>
        match DishOf(lis[n])
        case Err(e) => Err(e)
        case Ok(d) => Ok(ds + [d])
  }

  /** Entry `i` of a category's list is the record for its `i`-th `li`. */
  lemma {:induction false} DishListItem(lis: seq<Li>, i: nat)
    requires DishList(lis).Ok? && i < |lis|
    ensures Ok(DishList(lis).value[i]) == DishOf(lis[i])
    decreases |lis|
  {
    var n := |lis| - 1;
    if i < n {
      DishListItem(lis[..n], i);
    }
  }

  /** The name and the item list of one category, or the error reading it raises. */
  function CategoryOf(div: CategoryDiv): (r: Result<(string, seq<Dish>), ParseError>)
    ensures r.Ok? <==> div.h4.Some? && DishList(div.lis).Ok?
    ensures r.Ok? ==> r.value == (Strip(div.h4.value), DishList(div.lis).value)
    ensures r.Err? ==> r.error == if div.h4.None? then NoHeading else NoLink
  {
    match div.h4
    case None => Err(NoHeading)
    case Some(h) =>
      match DishList(div.lis)
      case Err(e) => Err(e)
      case Ok(ds) => Ok((Strip(h), ds))
  }

  /** What `parse_menu` returns for the blocks `divs`, or the error it raises. */
  function MenuOf(divs: seq<CategoryDiv>): Result<Menu, ParseError>
  {
    if |divs| == 0 then Ok([])
    else
      var n := |divs| - 1;
      match MenuOf(divs[..n])
      case Err(e) => Err(e)
      case Ok(menu) =>
        match CategoryOf(divs[n])
        case Err(e) => Err(e)
        case Ok(entry) => Ok(Set(menu, entry.0, entry.1))
  }

  /** `parse_menu(html)`, on the category blocks of `html`. */
  method ParseMenu(divs: seq<CategoryDiv>) returns (r: Result<Menu, ParseError>)
    ensures r == MenuOf(divs)
  {
    var menu: Menu := [];
    for i := 0 to |divs|
      invariant MenuOf(divs[..i]) == Ok(menu)
    {
      var category := divs[i];
      assert divs[..i + 1][..i] == divs[..i];
      if category.h4.None? {
        ErrorSticks(divs, i + 1);
        return Err(NoHeading);
      }
      var name := Strip(category.h4.value);
      var items: seq<Dish> := [];
      for j := 0 to |category.lis|
        invariant DishList(category.lis[..j]) == Ok(items)
      {
        var item := category.lis[j];
        assert category.lis[..j + 1][..j] == category.lis[..j];
        if item.a.None? {
          assert DishList(category.lis).Err? by {
            assert category.lis[j].a.None?;
          }
          ErrorSticks(divs, i + 1);
          return Err(NoLink);
        }
        items := items + [Dish(Strip(item.a.value), Alts(item.imgAlts))];
      }
      assert category.lis[..|category.lis|] == category.lis;
      menu := Set(menu, name, items);
    }
    assert divs[..|divs|] == divs;
    return Ok(menu);
  }

  /** Once a block fails, the parse fails with that block's error, whatever follows. */
  lemma {:induction false} ErrorSticks(divs: seq<CategoryDiv>, i: nat)
    requires i <= |divs| && MenuOf(divs[..i]).Err?
    ensures MenuOf(divs) == MenuOf(divs[..i])
    decreases |divs| - i
  {
    if i < |divs| {
      assert divs[..i + 1][..i] == divs[..i];
      ErrorSticks(divs, i + 1);
    } else {
      assert divs[..i] == divs;
    }
  }

  /** The name of every block, assuming each has an `h4`. */
  function Names(divs: seq<CategoryDiv>): (ns: seq<string>)
    requires forall i :: 0 <= i < |divs| ==> divs[i].h4.Some?
    ensures |ns| == |divs| && forall i :: 0 <= i < |divs| ==> ns[i] == Strip(divs[i].h4.value)
  {
    seq(|divs|, i requires 0 <= i < |divs| => Strip(divs[i].h4.value))
  }

  /** The `(name, items)` pairs of the blocks, in document order. */
  function Entries(divs: seq<CategoryDiv>): (es: seq<(string, seq<Dish>)>)
    requires forall i :: 0 <= i < |divs| ==> CategoryOf(divs[i]).Ok?
    ensures |es| == |divs| && forall i :: 0 <= i < |divs| ==> es[i] == CategoryOf(divs[i]).value
  {
    seq(|divs|, i requires 0 <= i < |divs| => CategoryOf(divs[i]).value)
  }

  /**
   * The parse succeeds exactly when every block has an `h4` and every `li`
   * an `a`, and then it is the assignments `menu_dict[name] = items` made
   * block by block.
   */
  lemma {:induction false} MenuOfEntries(divs: seq<CategoryDiv>)
    ensures MenuOf(divs).Ok? ==> forall i :: 0 <= i < |divs| ==> CategoryOf(divs[i]).Ok?
    ensures (forall i :: 0 <= i < |divs| ==> CategoryOf(divs[i]).Ok?) ==> MenuOf(divs).Ok?
    ensures MenuOf(divs).Ok? ==> MenuOf(divs).value == SetAll([], Entries(divs))
  {
    if |divs| > 0 {
      var n := |divs| - 1;
      var init := divs[..n];
      assert forall i :: 0 <= i < n ==> init[i] == divs[i];
      MenuOfEntries(init);
      if MenuOf(divs).Ok? {
        assert MenuOf(init).Ok? && CategoryOf(divs[n]).Ok?;
        forall i | 0 <= i < |divs|
          ensures CategoryOf(divs[i]).Ok?
        {
          if i < n {
            assert init[i] == divs[i];
            assert CategoryOf(init[i]).Ok?;
          } else {
            assert i == n;
          }
        }
        assert Entries(divs)[..n] == Entries(init);
      }
    }
  }

  /**
   * The keys of a parsed menu are the stripped `h4` texts, each once, in
   * the order of first appearance; no blocks give the empty dict.
   */
  lemma MenuKeys(divs: seq<CategoryDiv>)
    requires MenuOf(divs).Ok?
    ensures forall i :: 0 <= i < |divs| ==> divs[i].h4.Some?
    ensures Keys(MenuOf(divs).value) == Distinct(Names(divs))
    ensures |divs| == 0 ==> MenuOf(divs).value == []
  {
    MenuOfEntries(divs);
    KeysSetAll(Entries(divs));
    EntryNames(divs);
  }

  lemma EntryNames(divs: seq<CategoryDiv>)
    requires forall i :: 0 <= i < |divs| ==> CategoryOf(divs[i]).Ok?
    ensures Keys(Entries(divs)) == Names(divs)
  {
  }

  /**
   * Each name holds the items of the last block with that name: a later
   * block with the same name replaces the earlier list (and by `MenuKeys`
   * the name keeps its first place).
   */
  lemma MenuLastBlockWins(divs: seq<CategoryDiv>, i: nat)
    requires MenuOf(divs).Ok? && i < |divs|
    ensures forall j :: 0 <= j < |divs| ==> divs[j].h4.Some?
    ensures DishList(divs[i].lis).Ok?
    ensures var name := Strip(divs[i].h4.value);
      (forall j :: i < j < |divs| ==> Strip(divs[j].h4.value) != name) ==>
      Get(MenuOf(divs).value, name) == Some(DishList(divs[i].lis).value)
  {
    MenuOfEntries(divs);
    var es := Entries(divs);
    if forall j :: i < j < |divs| ==> Strip(divs[j].h4.value) != Strip(divs[i].h4.value) {
      GetSetAllLast(es, i);
    }
  }

  /** A category with no `li` is kept, with an empty list. */
  lemma EmptyCategoryKept(divs: seq<CategoryDiv>, h: string)
    requires MenuOf(divs).Ok?
    ensures MenuOf(divs + [CategoryDiv(Some(h), [])]) == Ok(Set(MenuOf(divs).value, Strip(h), []))
  {
    var ds := divs + [CategoryDiv(Some(h), [])];
    assert ds[..|divs|] == divs;
  }

  /**
   * The dish list of a parsed category has one record per `li`, in order:
   * the stripped link text and the alts present.
   */
  lemma MenuItems(divs: seq<CategoryDiv>, i: nat, j: nat)
    requires MenuOf(divs).Ok? && i < |divs| && j < |divs[i].lis|
    ensures DishList(divs[i].lis).Ok? && divs[i].lis[j].a.Some?
    ensures |DishList(divs[i].lis).value| == |divs[i].lis|
    ensures DishList(divs[i].lis).value[j] == Dish(Strip(divs[i].lis[j].a.value), Alts(divs[i].lis[j].imgAlts))
  {
    MenuOfEntries(divs);
    assert CategoryOf(divs[i]).Ok?;
    DishListItem(divs[i].lis, j);
  }

  /** The position of the first block that raises an error, or `|divs|` when none does. */
  function FirstBad(divs: seq<CategoryDiv>): (k: nat)
    ensures k <= |divs|
    ensures forall j :: 0 <= j < k ==> CategoryOf(divs[j]).Ok?
    ensures k < |divs| ==> CategoryOf(divs[k]).Err?
  {
    if |divs| == 0 then 0
    else
      var n := |divs| - 1;
      var k := FirstBad(divs[..n]);
      assert forall j :: 0 <= j < n ==> divs[..n][j] == divs[j];
      if k < n then k
      else if CategoryOf(divs[n]).Err? then n
      else |divs|
  }

  /**
   * The parse fails exactly when some block lacks an `h4` or has an `li`
   * without `a`, with the error of the first such block: `NoHeading` when
   * its `h4` is missing, `NoLink` otherwise.
   */
  lemma {:induction false} MenuError(divs: seq<CategoryDiv>)
    ensures MenuOf(divs).Err? <==> FirstBad(divs) < |divs|
    ensures MenuOf(divs).Err? ==> MenuOf(divs).error == CategoryOf(divs[FirstBad(divs)]).error
  {
    if |divs| > 0 {
      var n := |divs| - 1;
      MenuError(divs[..n]);
      if FirstBad(divs[..n]) < n {
        assert divs[..n][FirstBad(divs[..n])] == divs[FirstBad(divs)];
      }
    }
  }
}
