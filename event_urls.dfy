/**
 * `EventUrls` of `seantis/reservation/utils.py`: the menu of links offered for
 * a calendar event. `menu` maps a translated group name to its entries,
 * `order` remembers the groups in the order they were first used, and
 * `default` and `move` hold two further links. A link is built only for views
 * the current user may see; the exposure check, the URL joining and the
 * translation are parameters.
 */
module EventMenu {
  import opened Wrappers

  datatype MenuItem = MenuItem(name: string, url: string, target: string)

  /** Query parameters, in the order they are given. */
  type Params = seq<(string, string)>

  /** Python truthiness of a built link: `None` and `''` are false. */
  predicate Truthy(url: Option<string>) {
    url.Some? && url.value != []
  }

  /** The entries of `group` in `menu`, none when the group is absent. */
  function Entries(menu: map<string, seq<MenuItem>>, group: string): seq<MenuItem> {
    if group in menu then menu[group] else []
  }

  class EventUrls {
    /** `resource.absolute_url_path()`. */
    const base: string
    /** `exposure.for_views(resource, request)`: may the user see this view? */
    const isExposed: string -> bool
    /** `urlparam(base, view, params)`, which may build an empty link. */
    const urlparam: (string, string, Params) -> string
    /** `translator(resource, request)`. */
    const translate: string -> string

    var menu: map<string, seq<MenuItem>>
    var order: seq<string>
    var defaultUrl: string
    var moveUrl: string

    /** `order` lists every group of `menu` exactly once. */
    ghost predicate Valid()
      reads this
    {
      (forall g :: g in menu <==> g in order)
      && forall i, j :: 0 <= i < j < |order| ==> order[i] != order[j]
    }

    /** `EventUrls(resource, request, exposure)`: an empty menu and empty links. */
    constructor(base: string, isExposed: string -> bool, urlparam: (string, string, Params) -> string,
                translate: string -> string)
      ensures this.base == base && this.isExposed == isExposed
      ensures this.urlparam == urlparam && this.translate == translate
      ensures menu == map[] && order == [] && defaultUrl == "" && moveUrl == ""
      ensures Valid()
    {
      this.base := base;
      this.isExposed := isExposed;
      this.urlparam := urlparam;
      this.translate := translate;
      menu := map[];
      order := [];
      defaultUrl := "";
      moveUrl := "";
    }

    /** `get_restricted(view, params)`: the link when the view is exposed, else `None`. */
    function GetRestricted(view: string, params: Params): (url: Option<string>)
      ensures url.Some? <==> isExposed(view)
      ensures url.Some? ==> url.value == urlparam(base, view, params)
    {
      if isExposed(view) then Some(urlparam(base, view, params)) else None
    }

    /**
     * `menu_add(group, name, view, params, target)`: without a link nothing
     * changes; otherwise the entry is appended to its translated group, and a
     * group used for the first time is appended to `order`.
     */
    method MenuAdd(group: string, name: string, view: string, params: Params, target: string)
      requires Valid()
      modifies this
      ensures Valid()
      ensures defaultUrl == old(defaultUrl) && moveUrl == old(moveUrl)
      ensures !Truthy(GetRestricted(view, params)) ==> menu == old(menu) && order == old(order)
      ensures Truthy(GetRestricted(view, params)) ==>
                var g := translate(group);
                var item := MenuItem(translate(name), GetRestricted(view, params).value, target);
                menu == old(menu)[g := Entries(old(menu), g) + [item]]
                && order == (if g in old(menu) then old(order) else old(order) + [g])
    {
      var url := GetRestricted(view, params);
      if !Truthy(url) {
        return;
      }
      var g := translate(group);
      var n := translate(name);
      if g !in menu {
        menu := menu[g := []];
        order := order + [g];
      }
      menu := menu[g := menu[g] + [MenuItem(n, url.value, target)]];
    }

    /** `default_url(view, params)`: the default link is replaced when there is one. */
    method SetDefaultUrl(view: string, params: Params)
      requires Valid()
      modifies this
      ensures Valid()
      ensures menu == old(menu) && order == old(order) && moveUrl == old(moveUrl)
      ensures defaultUrl == if Truthy(GetRestricted(view, params)) then GetRestricted(view, params).value
                            else old(defaultUrl)
    {
      var url := GetRestricted(view, params);
      if !Truthy(url) {
        return;
      }
      defaultUrl := url.value;
    }

    /** `move_url(view, params)`: the move link is replaced when there is one. */
    method SetMoveUrl(view: string, params: Params)
      requires Valid()
      modifies this
      ensures Valid()
      ensures menu == old(menu) && order == old(order) && defaultUrl == old(defaultUrl)
      ensures moveUrl == if Truthy(GetRestricted(view, params)) then GetRestricted(view, params).value
                         else old(moveUrl)
    {
      var url := GetRestricted(view, params);
      if !Truthy(url) {
        return;
      }
      moveUrl := url.value;
    }
  }

  /** One `menu_add` call, with the group and name already translated and the link already built. */
  datatype Addition = Addition(group: string, item: MenuItem)

  /** Some addition of the series goes to `group`. */
  predicate Used(adds: seq<Addition>, group: string) {
    exists i :: 0 <= i < |adds| && adds[i].group == group
  }

  /** The groups in the order of their first addition. */
  function FirstUse(adds: seq<Addition>): (r: seq<string>)
    ensures forall g :: g in r <==> Used(adds, g)
    ensures forall i, j :: 0 <= i < j < |r| ==> r[i] != r[j]
  {
    if adds == [] then []
    else
      var init := FirstUse(adds[..|adds| - 1]);
      var g := adds[|adds| - 1].group;
      UsedSnoc(adds[..|adds| - 1], adds[|adds| - 1]);
      assert adds[..|adds| - 1] + [adds[|adds| - 1]] == adds;
      if g in init then init else init + [g]
  }

  lemma UsedSnoc(adds: seq<Addition>, a: Addition)
    ensures forall g :: Used(adds + [a], g) <==> Used(adds, g) || g == a.group
  {
    forall g | Used(adds + [a], g)
      ensures Used(adds, g) || g == a.group
    {
      var i :| 0 <= i < |adds| + 1 && (adds + [a])[i].group == g;
      if i < |adds| {
        assert adds[i].group == g;
      }
    }
    forall g | Used(adds, g)
      ensures Used(adds + [a], g)
    {
      var i :| 0 <= i < |adds| && adds[i].group == g;
      assert (adds + [a])[i].group == g;
    }
    assert (adds + [a])[|adds|].group == a.group;
  }

  /** The entries of a group, in the order they were added. */
  function ItemsOf(adds: seq<Addition>, group: string): seq<MenuItem> {
    if adds == [] then []
    else
      var init := ItemsOf(adds[..|adds| - 1], group);
      if adds[|adds| - 1].group == group then init + [adds[|adds| - 1].item] else init
  }

  /** The menu a series of additions builds, starting from an empty one. */
  ghost predicate Built(menu: map<string, seq<MenuItem>>, order: seq<string>, adds: seq<Addition>) {
    order == FirstUse(adds)
    && (forall g :: g in menu <==> g in order)
    && forall g :: g in menu ==> menu[g] == ItemsOf(adds, g)
  }

  /**
   * One more addition keeps the menu equal to the one the whole series
   * builds: each group lists its entries in the order added, and `order`
   * lists the groups by first use.
   */
  lemma AddKeepsBuilt(menu: map<string, seq<MenuItem>>, order: seq<string>, adds: seq<Addition>, a: Addition)
    requires Built(menu, order, adds)
    ensures Built(menu[a.group := Entries(menu, a.group) + [a.item]],
                  if a.group in menu then order else order + [a.group],
                  adds + [a])
  {
    var adds' := adds + [a];
    assert adds'[..|adds'| - 1] == adds;
    var menu' := menu[a.group := Entries(menu, a.group) + [a.item]];
    forall g | g in menu'
      ensures menu'[g] == ItemsOf(adds', g)
    {
      if g != a.group {
        assert ItemsOf(adds', g) == ItemsOf(adds, g);
      } else if a.group !in menu {
        ItemsOfAbsent(adds, g);
      }
    }
  }

  /** A group never added has no entries. */
  lemma {:induction false} ItemsOfAbsent(adds: seq<Addition>, group: string)
    requires !Used(adds, group)
    ensures ItemsOf(adds, group) == []
  {
    if adds != [] {
      UsedSnoc(adds[..|adds| - 1], adds[|adds| - 1]);
      assert adds[..|adds| - 1] + [adds[|adds| - 1]] == adds;
      ItemsOfAbsent(adds[..|adds| - 1], group);
    }
  }
}
