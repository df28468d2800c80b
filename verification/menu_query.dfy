/**
 * The menu service: from the unit page's menu panel it builds the index
 * `date -> meal -> menu id`, looks up the id of the requested meal and asks
 * for that menu's item panel, which `parse_menu` reads.
 *
 * The two POST responses are parameters: their `Content-Type` header and
 * their JSON `panels`, each panel's HTML already split into the elements the
 * code reads. The response to the menu request is a function of the menu id
 * asked for. The session and the HTTP traffic are modelled as the trace of
 * requests sent.
 */
module MenuQuery {
  import opened Wrappers
  import opened Seqs
  import opened Text
  import opened Dicts
  import opened Dates
  import opened MenuParser

  /** One `a.cbo_nn_menuLink`: its text and its `onclick` attribute, if any. */
  datatype Link = Link(text: string, onclick: Option<string>)

  /** One `section.card`: the text of its `header.card-title`, if any, and its menu links. */
  datatype Card = Card(header: Option<string>, links: seq<Link>)

  /** One entry of a response's `panels`, with its HTML. */
  datatype Panel<H> = Panel(id: string, html: H)

  /** A POST response: its `Content-Type` header, if any, and its panels. */
  datatype Response<H> = Response(contentType: Option<string>, panels: seq<Panel<H>>)

  /** The exceptions the service raises. */
  datatype QueryError =
    | BadDate(header: string)      // `strptime` rejects a card's header
    | UnitNotJson                  // the unit response is not JSON
    | NoMenuPanel                  // `next` finds no `menuPanel`
    | MenuNotJson                  // the menu response is not JSON
    | NoItemPanel                  // `next` finds no `itemPanel`
    | ParseFailed(error: ParseError)

  /** The requests the service sends, in order. */
  datatype Request = Home | SelectUnit(unitOid: int) | SelectMenu(menuOid: nat)

  /** `date -> meal -> menu id`. */
  type UnitMenus = Dict<Dict<nat>>

  // ---------------------------------------------------------------------------
  // _parse_unit_menu_panel
  // ---------------------------------------------------------------------------

  /** The menu id in a link's `onclick` (read as "" when absent), if the pattern finds one. */
  function LinkNumber(link: Link): Option<nat>
  {
    FirstParenNumber(link.onclick.GetOr(""))
  }

  /**
   * The assignment `out[date_key][meal] = id` one link makes: its stripped
   * text and the id in its `onclick`; none when there is no id.
   */
  function MealEntry(link: Link): (r: Option<(string, nat)>)
    ensures r.Some? <==> LinkNumber(link).Some?
    ensures r.Some? ==> r.value == (Strip(link.text), LinkNumber(link).value)
  {
    match LinkNumber(link)
    case None => None
    case Some(v) => Some((Strip(link.text), v))
  }

  /** The `(meal, id)` assignments the links of one card make, in order. */
  function MealPairs(links: seq<Link>): seq<(string, nat)>
  {
    FilterMap(links, MealEntry)
  }

  /** The meal dict of one card: `out[date_key]` after its links are read. */
  function MealsOf(links: seq<Link>): Dict<nat>
  {
    SetAll([], MealPairs(links))
  }

  /** The date key of a card with a header: the header, stripped, read by `strptime`. */
  function DateKey(header: string): Option<string>
  {
    ParseDate(Strip(header))
  }

  /**
   * A header's date key is `k` exactly when the header, without the
   * whitespace around it, is laid out as `%A, %B %d, %Y` with fields naming
   * an existing date whose ISO text is `k`; whitespace around a header does
   * not change its key.
   */
  lemma DateKeyHeader(header: string, k: string)
    ensures DateKey(header) == Some(k) <==>
      exists w: nat, c: nat, b: nat, c2: nat, e: nat, n: nat, m: nat, d: nat, y: nat ::
        HeaderAt(Strip(header), w, c, b, c2, e, n, m, d, y) && IsDate(y, m, d) && k == IsoDate(y, m, d)
    ensures forall pre, post :: AllSpace(pre) && AllSpace(post) ==> DateKey(pre + Strip(header) + post) == DateKey(header)
  {
    ParseDateHeader(Strip(header), k);
    forall pre, post | AllSpace(pre) && AllSpace(post)
      ensures DateKey(pre + Strip(header) + post) == DateKey(header)
    {
      StripPadded(pre, Strip(header), post);
    }
  }

  /** What `_parse_unit_menu_panel` returns for the cards, or the error it raises. */
  function CardsIndex(cards: seq<Card>): Result<UnitMenus, QueryError>
  {
    if |cards| == 0 then Ok([])
    else
      var n := |cards| - 1;
      match CardsIndex(cards[..n])
      case Err(e) => Err(e)
      case Ok(out) =>
        match cards[n].header
        case None => Ok(out)
        case Some(h) =>
          match DateKey(h)
          case None => Err(BadDate(Strip(h)))
          case Some(dk) => Ok(Set(out, dk, MealsOf(cards[n].links)))
  }

  /** `_parse_unit_menu_panel(html)`, on the cards of `html`. */
  method ParseUnitMenuPanel(cards: seq<Card>) returns (r: Result<UnitMenus, QueryError>)
    ensures r == CardsIndex(cards)
  {
    var out: UnitMenus := [];
    for i := 0 to |cards|
      invariant CardsIndex(cards[..i]) == Ok(out)
    {
      var card := cards[i];
      assert cards[..i + 1][..i] == cards[..i];
      if card.header.None? {
        continue;
      }
      var dateKey := DateKey(card.header.value);
      if dateKey.None? {
        CardErrorSticks(cards, i + 1);
        return Err(BadDate(Strip(card.header.value)));
      }
      var dk := dateKey.value;
      var before := out;
      out := Set(out, dk, []);
      for j := 0 to |card.links|
        invariant out == Set(before, dk, MealsOf(card.links[..j]))
      {
        var link := card.links[j];
        assert card.links[..j + 1][..j] == card.links[..j];
        var meal := Strip(link.text);
        var m := LinkNumber(link);
        if m.Some? {
          var meals := MealsOf(card.links[..j]);
          GetSet(before, dk, meals, dk);
          out := Set(out, dk, Set(Get(out, dk).value, meal, m.value));
          SetTwice(before, dk, meals, Set(meals, meal, m.value));
          SetAllSnoc([], MealPairs(card.links[..j]), meal, m.value);
        }
      }
      assert card.links[..|card.links|] == card.links;
    }
    assert cards[..|cards|] == cards;
    return Ok(out);
  }

  /** Once a card's date fails to parse, the whole parse fails with that error. */
  lemma {:induction false} CardErrorSticks(cards: seq<Card>, i: nat)
    requires i <= |cards| && CardsIndex(cards[..i]).Err?
    ensures CardsIndex(cards) == CardsIndex(cards[..i])
    decreases |cards| - i
  {
    if i < |cards| {
      assert cards[..i + 1][..i] == cards[..i];
      CardErrorSticks(cards, i + 1);
    } else {
      assert cards[..i] == cards;
    }
  }

  /** A card without a header is skipped. */
  lemma HeaderlessSkipped(cards: seq<Card>, links: seq<Link>)
    ensures CardsIndex(cards + [Card(None, links)]) == CardsIndex(cards)
  {
    assert (cards + [Card(None, links)])[..|cards|] == cards;
  }

  /** The position of the first card whose header is there but is not a date, or `|cards|`. */
  function FirstBadCard(cards: seq<Card>): (k: nat)
    ensures k <= |cards|
    ensures forall j :: 0 <= j < k ==> cards[j].header.None? || DateKey(cards[j].header.value).Some?
    ensures k < |cards| ==> cards[k].header.Some? && DateKey(cards[k].header.value).None?
  {
    if |cards| == 0 then 0
    else
      var n := |cards| - 1;
      var k := FirstBadCard(cards[..n]);
      assert forall j :: 0 <= j < n ==> cards[..n][j] == cards[j];
      if k < n then k
      else if cards[n].header.Some? && DateKey(cards[n].header.value).None? then n
      else |cards|
  }

  /**
   * The parse fails exactly when some card has a header that is not a date,
   * and then with the text of the first such header.
   */
  lemma {:induction false} CardsError(cards: seq<Card>)
    ensures CardsIndex(cards).Err? <==> FirstBadCard(cards) < |cards|
    ensures CardsIndex(cards).Err? ==>
      CardsIndex(cards).error == BadDate(Strip(cards[FirstBadCard(cards)].header.value))
  {
    if |cards| > 0 {
      var n := |cards| - 1;
      CardsError(cards[..n]);
      if FirstBadCard(cards[..n]) < n {
        assert cards[..n][FirstBadCard(cards[..n])] == cards[FirstBadCard(cards)];
      }
    }
  }

  /** The `(date key, meals)` pairs of the cards with a header that is a date, in order. */
  function DateEntries(cards: seq<Card>): (es: seq<(string, Dict<nat>)>)
    ensures |es| <= |cards|
  {
    if |cards| == 0 then []
    else
      var n := |cards| - 1;
      var p := DateEntries(cards[..n]);
      match cards[n].header
      case None => p
      case Some(h) =>
        match DateKey(h)
        case None => p
        case Some(dk) => p + [(dk, MealsOf(cards[n].links))]
  }

  /**
   * A successful parse is the assignments `out[date_key] = meals` made card
   * by card: each date holds the meals of the last card with that date, and
   * the dates are listed in the order first seen.
   */
  lemma {:induction false} CardsEntries(cards: seq<Card>)
    requires CardsIndex(cards).Ok?
    ensures CardsIndex(cards).value == SetAll([], DateEntries(cards))
  {
    if |cards| > 0 {
      var n := |cards| - 1;
      CardsEntries(cards[..n]);
      if cards[n].header.Some? {
        var dk := DateKey(cards[n].header.value).value;
        SetAllSnoc([], DateEntries(cards[..n]), dk, MealsOf(cards[n].links));
      }
    }
  }

  /** Looking up a date in the index finds the meals of the last card with that date. */
  lemma CardsLookup(cards: seq<Card>, date: string)
    requires CardsIndex(cards).Ok?
    ensures Get(CardsIndex(cards).value, date) == LastFor(DateEntries(cards), date)
    ensures Keys(CardsIndex(cards).value) == Distinct(Keys(DateEntries(cards)))
  {
    CardsEntries(cards);
    GetSetAll([], DateEntries(cards), date);
    KeysSetAll(DateEntries(cards));
  }

  /**
   * A meal is assigned exactly by the links whose text strips to it and
   * whose `onclick` holds a number: links without one are skipped.
   */
  lemma MealPairsSpec(links: seq<Link>, meal: string, v: nat)
    ensures (meal, v) in MealPairs(links) <==>
      exists i :: 0 <= i < |links| && MealEntry(links[i]) == Some((meal, v))
  {
    FilterMapSpec(links, MealEntry, (meal, v));
  }

  /** Within a card, each meal holds the id of the last link naming it. */
  lemma MealsLookup(links: seq<Link>, meal: string)
    ensures Get(MealsOf(links), meal) == LastFor(MealPairs(links), meal)
  {
    GetSetAll([], MealPairs(links), meal);
  }

  // ---------------------------------------------------------------------------
  // _get_unit_menus and fetch_menu_data
  // ---------------------------------------------------------------------------

  /** The response's `Content-Type` (read as "" when absent) starts with `application/json`. */
  predicate IsJson<H>(r: Response<H>) {
    StartsWith(r.contentType.GetOr(""), "application/json")
  }

  /**
   * A response counts as JSON exactly when it has a `Content-Type` that is
   * `application/json` followed by anything (a `; charset=…`, say); a
   * response without the header never does.
   */
  lemma IsJsonSpec<H>(r: Response<H>)
    ensures IsJson(r) <==> exists rest :: r.contentType == Some("application/json" + rest)
  {
    if IsJson(r) {
      var t := r.contentType.value;
      assert t == "application/json" + t[16..];
    }
  }

  /** The position of the first panel with id `id`, or `|panels|`. */
  function PanelIndex<H>(panels: seq<Panel<H>>, id: string): (k: nat)
    ensures k <= |panels|
    ensures k < |panels| ==> panels[k].id == id
    ensures forall j :: 0 <= j < k ==> panels[j].id != id
  {
    if |panels| == 0 then 0
    else if panels[0].id == id then 0
    else 1 + PanelIndex(panels[1..], id)
  }

  /** `next(p["html"] for p in panels if p["id"] == id)`; None where `next` raises. */
  function FindPanel<H>(panels: seq<Panel<H>>, id: string): (r: Option<H>)
    ensures r.None? <==> forall j :: 0 <= j < |panels| ==> panels[j].id != id
    ensures r.Some? ==>
      exists k :: 0 <= k < |panels| && panels[k] == Panel(id, r.value) && forall j :: 0 <= j < k ==> panels[j].id != id
  {
    var k := PanelIndex(panels, id);
    if k < |panels| then Some(panels[k].html) else None
  }

  /** `_get_unit_menus`, given the response to the unit request. */
  function GetUnitMenus(resp: Response<seq<Card>>): (r: Result<UnitMenus, QueryError>)
    ensures !IsJson(resp) ==> r == Err(UnitNotJson)
    ensures IsJson(resp) && FindPanel(resp.panels, "menuPanel").None? ==> r == Err(NoMenuPanel)
    ensures IsJson(resp) && FindPanel(resp.panels, "menuPanel").Some? ==>
      r == CardsIndex(FindPanel(resp.panels, "menuPanel").value)
  {
    if !IsJson(resp) then Err(UnitNotJson)
    else
      match FindPanel(resp.panels, "menuPanel")
      case None => Err(NoMenuPanel)
      case Some(cards) => CardsIndex(cards)
  }

  /** `menus_map[date][meal.capitalize()]`; None where Python raises KeyError. */
  function LookupMenu(menus: UnitMenus, date: string, meal: string): Option<nat>
  {
    match Get(menus, date)
    case None => None
    case Some(meals) => Get(meals, Capitalize(meal))
  }

  /**
   * The lookup fails (KeyError) exactly when the date is not in the index or
   * the capitalised meal is not among that date's meals; otherwise it gives an
   * id stored under the capitalised meal for that date.
   */
  lemma LookupMenuSpec(menus: UnitMenus, date: string, meal: string)
    ensures LookupMenu(menus, date, meal).None? <==>
      date !in Keys(menus) || Capitalize(meal) !in Keys(Get(menus, date).value)
    ensures LookupMenu(menus, date, meal).Some? ==>
      exists meals :: (date, meals) in menus && (Capitalize(meal), LookupMenu(menus, date, meal).value) in meals
  {
  }

  /** The requests sent and the value returned (None for "no menu") or the error raised. */
  datatype Fetch = Fetch(requests: seq<Request>, result: Result<Option<Menu>, QueryError>)

  /**
   * `fetch_menu_data(date, meal, unitOid)`, given the response to the unit
   * request and the response to a menu request for each menu id.
   */
  function FetchMenuData(
    date: string, meal: string, unitOid: int,
    unitResp: Response<seq<Card>>, menuResp: nat -> Response<seq<CategoryDiv>>
  ): (r: Fetch)
    ensures |r.requests| >= 2 && r.requests[..2] == [Home, SelectUnit(unitOid)]
    ensures |r.requests| == 3 <==> r.requests != [Home, SelectUnit(unitOid)]
  {
    var sent := [Home, SelectUnit(unitOid)];
    match GetUnitMenus(unitResp)
    case Err(e) => Fetch(sent, Err(e))
    case Ok(menus) =>
      match LookupMenu(menus, date, meal)
      case None => Fetch(sent, Ok(None))
      case Some(oid) =>
        var resp := menuResp(oid);
        var sent' := sent + [SelectMenu(oid)];
        if !IsJson(resp) then Fetch(sent', Err(MenuNotJson))
        else
          match FindPanel(resp.panels, "itemPanel")
          case None => Fetch(sent', Err(NoItemPanel))
          case Some(divs) =>
            match MenuOf(divs)
            case Err(e) => Fetch(sent', Err(ParseFailed(e)))
            case Ok(menu) => Fetch(sent', Ok(Some(menu)))
  }

  /** A failed unit request ends the call with its error, before any menu request. */
  lemma FetchUnitFails(
    date: string, meal: string, unitOid: int,
    unitResp: Response<seq<Card>>, menuResp: nat -> Response<seq<CategoryDiv>>
  )
    requires GetUnitMenus(unitResp).Err?
    ensures FetchMenuData(date, meal, unitOid, unitResp, menuResp)
      == Fetch([Home, SelectUnit(unitOid)], Err(GetUnitMenus(unitResp).error))
  {
  }

  /**
   * The menu id is the one the index holds for the date and the capitalised
   * meal; when there is none the call returns None without a menu request.
   */
  lemma FetchLookup(
    date: string, meal: string, unitOid: int,
    unitResp: Response<seq<Card>>, menuResp: nat -> Response<seq<CategoryDiv>>
  )
    requires GetUnitMenus(unitResp).Ok?
    ensures var menus := GetUnitMenus(unitResp).value;
      var r := FetchMenuData(date, meal, unitOid, unitResp, menuResp);
      && (LookupMenu(menus, date, meal).None? <==> r == Fetch([Home, SelectUnit(unitOid)], Ok(None)))
      && (LookupMenu(menus, date, meal).Some? ==>
            r.requests == [Home, SelectUnit(unitOid), SelectMenu(LookupMenu(menus, date, meal).value)])
  {
  }

  /**
   * When a menu id is found, a menu response that is not JSON fails the call
   * with `MenuNotJson`, and a JSON one without an item panel with
   * `NoItemPanel`; either way after the three requests.
   */
  lemma FetchMenuFails(
    date: string, meal: string, unitOid: int,
    unitResp: Response<seq<Card>>, menuResp: nat -> Response<seq<CategoryDiv>>, oid: nat
  )
    requires GetUnitMenus(unitResp).Ok? && LookupMenu(GetUnitMenus(unitResp).value, date, meal) == Some(oid)
    ensures var r := FetchMenuData(date, meal, unitOid, unitResp, menuResp);
      && (!IsJson(menuResp(oid)) ==>
            r == Fetch([Home, SelectUnit(unitOid), SelectMenu(oid)], Err(MenuNotJson)))
      && (IsJson(menuResp(oid)) && FindPanel(menuResp(oid).panels, "itemPanel").None? ==>
            r == Fetch([Home, SelectUnit(unitOid), SelectMenu(oid)], Err(NoItemPanel)))
  {
  }

  /**
   * When a menu id is found and its response holds an item panel, the call
   * returns exactly what `parse_menu` makes of that panel.
   */
  lemma FetchParses(
    date: string, meal: string, unitOid: int,
    unitResp: Response<seq<Card>>, menuResp: nat -> Response<seq<CategoryDiv>>, oid: nat
  )
    requires GetUnitMenus(unitResp).Ok? && LookupMenu(GetUnitMenus(unitResp).value, date, meal) == Some(oid)
    requires IsJson(menuResp(oid)) && FindPanel(menuResp(oid).panels, "itemPanel").Some?
    ensures var divs := FindPanel(menuResp(oid).panels, "itemPanel").value;
      FetchMenuData(date, meal, unitOid, unitResp, menuResp).result ==
        match MenuOf(divs)
        case Err(e) => Err(ParseFailed(e))
        case Ok(menu) => Ok(Some(menu))
  {
  }

  /**
   * The meal name is matched after capitalisation, so any spelling of the
   * same letters finds the same menu.
   */
  lemma LookupIgnoresMealCase(menus: UnitMenus, date: string, meal: string, meal': string)
    requires Lower(meal) == Lower(meal')
    ensures LookupMenu(menus, date, meal) == LookupMenu(menus, date, meal')
  {
    CapitalizeLower(meal, meal');
  }
}
