/**
 * The text builders of `seantis/reservation/utils.py`: `event_class`,
 * `get_site_email_sender`, `get_resource_title`, `compare_link`,
 * `monthly_report_link` and `mock_data_dictionary`. Site properties, the
 * exposure filter, URLs and the current date are parameters.
 */
module SiteText {
  import opened Wrappers
  import opened Decimal
  import opened Dates

  // ---------------------------------------------------------------------
  // event_class

  const Unavailable := "event-unavailable"
  const Available := "event-available"
  const PartlyAvailable := "event-partly-available"

  /** `event_class(availability)`: the CSS class for an availability percentage. */
  function EventClass(availability: int): (c: string)
    ensures c == Unavailable <==> availability == 0
    ensures c == Available <==> availability == 100
    ensures c == PartlyAvailable <==> availability != 0 && availability != 100
  {
    if availability == 0 then Unavailable
    else if availability == 100 then Available
    else PartlyAvailable
  }

  // ---------------------------------------------------------------------
  // get_site_email_sender

  /** Python truthiness of an optional string property: `None` and `''` are false. */
  predicate Truthy(s: Option<string>) {
    s.Some? && s.value != []
  }

  /** `get_site_email_sender()` given the site's `email_from_name` and `email_from_address`. */
  function SiteEmailSender(name: Option<string>, address: Option<string>): (r: Option<string>)
    ensures r.None? <==> !Truthy(address)
    ensures r.Some? && !Truthy(name) ==> r.value == address.value
    ensures r.Some? && Truthy(name) ==>
              |r.value| == |name.value| + |address.value| + 2
              && r.value[..|name.value|] == name.value
              && r.value[|name.value|] == '<'
              && r.value[|name.value| + 1..|r.value| - 1] == address.value
              && r.value[|r.value| - 1] == '>'
  {
    if !Truthy(address) then None
    else if Truthy(name) then Some(name.value + "<" + address.value + ">")
    else Some(address.value)
  }

  /** The index of the first occurrence of `c` in `s`, if any. */
  function IndexOf(s: string, c: char): (r: Option<nat>)
    ensures r.None? <==> c !in s
    ensures r.Some? ==> r.value < |s| && s[r.value] == c && c !in s[..r.value]
  {
    if s == [] then None
    else if s[0] == c then Some(0)
    else match IndexOf(s[1..], c)
      case None => None
      case Some(i) => assert s[..i + 1] == [s[0]] + s[1..][..i]; Some(i + 1)
  }

  /**
   * Reads a sender back: `name<address>` gives the name and the address, a
   * bare address gives no name.
   */
  function ParseSender(s: string): (Option<string>, string) {
    if |s| >= 2 && s[|s| - 1] == '>' then
      match IndexOf(s, '<')
      case Some(i) => (Some(s[..i]), s[i + 1..|s| - 1])
      case None => (None, s)
    else (None, s)
  }

  /**
   * The sender string determines the name and the address, as long as the
   * name holds no `<` and the address no `<` or `>`.
   */
  lemma SenderReadsBack(name: Option<string>, address: string)
    requires address != [] && '<' !in address && '>' !in address
    requires name.Some? ==> '<' !in name.value
    ensures var r := SiteEmailSender(name, Some(address));
            r.Some? && ParseSender(r.value) == (if Truthy(name) then (name, address) else (None, address))
  {
    var r := SiteEmailSender(name, Some(address)).value;
    if Truthy(name) {
      var n := name.value;
      assert r[..|n|] == n && r[|n|] == '<';
      assert IndexOf(r, '<') == Some(|n|);
    } else {
      assert r == address;
      assert r != [] ==> r[|r| - 1] in address;
    }
  }

  // ---------------------------------------------------------------------
  // get_resource_title

  /**
   * How a resource reaches its parent: through a `__parent__` attribute,
   * through a `parent()` method, or not at all; each carries the parent's title.
   */
  datatype ParentLink = DunderParent(parentTitle: string) | ParentMethod(parentTitle: string) | NoParent

  const TitleSeparator := " - "

  /** `get_resource_title(resource)`: the parent's title and the resource's, or the resource's alone. */
  function ResourceTitle(title: string, parent: ParentLink): (r: string)
    ensures parent.NoParent? ==> r == title
    ensures !parent.NoParent? ==>
              |r| == |parent.parentTitle| + 3 + |title|
              && r[..|parent.parentTitle|] == parent.parentTitle
              && r[|parent.parentTitle|..|parent.parentTitle| + 3] == TitleSeparator
              && r[|parent.parentTitle| + 3..] == title
  {
    match parent
    case NoParent => title
    case DunderParent(p) => p + TitleSeparator + title
    case ParentMethod(p) => p + TitleSeparator + title
  }

  /** Both ways of reaching the parent give the same title. */
  lemma ResourceTitleEitherParent(title: string, p: string)
    ensures ResourceTitle(title, DunderParent(p)) == ResourceTitle(title, ParentMethod(p))
    ensures ResourceTitle(title, DunderParent(p)) != ResourceTitle(title, NoParent)
  {
    assert |ResourceTitle(title, DunderParent(p))| > |title|;
  }

  // ---------------------------------------------------------------------
  // compare_link and monthly_report_link

  /** A resource as the links see it: its URL path and its identifier. */
  datatype Resource = Resource(path: string, uuid: string)

  /** `s.rstrip(c)`: every trailing `c` removed. */
  function RStrip(s: string, c: char): (r: string)
    ensures |r| <= |s| && r == s[..|r|]
    ensures r == [] || r[|r| - 1] != c
    ensures forall i :: |r| <= i < |s| ==> s[i] == c
  {
    if s != [] && s[|s| - 1] == c then RStrip(s[..|s| - 1], c) else s
  }

  /** `key + value + suffix` for each value, concatenated. */
  function Params(key: string, values: seq<string>, suffix: string): (r: string)
    ensures values == [] ==> r == []
  {
    if values == [] then [] else Params(key, values[..|values| - 1], suffix) + key + values[|values| - 1] + suffix
  }

  /** The values as `key=value` pairs joined with `&`. */
  function JoinQuery(key: string, values: seq<string>): string
    decreases |values|
  {
    if values == [] then []
    else if |values| == 1 then key + values[0]
    else JoinQuery(key, values[..|values| - 1]) + "&" + key + values[|values| - 1]
  }

  function Uuids(resources: seq<Resource>): (r: seq<string>)
    ensures |r| == |resources| && forall i :: 0 <= i < |r| ==> r[i] == resources[i].uuid
  {
    seq(|resources|, i requires 0 <= i < |resources| => resources[i].uuid)
  }

  const CompareKey := "compare_to="

  /**
   * `compare_link(resources)`: the exposure filter limits the resources; with
   * fewer than two left the link is empty, else it is the first one's path
   * with a `compare_to` parameter for each of the others.
   */
  method CompareLink(limitResources: seq<Resource> -> seq<Resource>, resources: seq<Resource>)
    returns (link: string)
    ensures var shown := limitResources(resources);
            link == if |shown| < 2 then ""
                    else RStrip(shown[0].path + "?" + Params(CompareKey, Uuids(shown[1..]), "&"), '&')
  {
    var shown := limitResources(resources);
    if |shown| < 2 {
      return "";
    }
    link := shown[..1][0].path + "?";
    var compareTo := Uuids(shown[1..]);
    var i := 0;
    while i < |compareTo|
      invariant 0 <= i <= |compareTo|
      invariant link == shown[0].path + "?" + Params(CompareKey, compareTo[..i], "&")
    {
      assert compareTo[..i + 1][..i] == compareTo[..i];
      link := link + CompareKey + compareTo[i] + "&";
      i := i + 1;
    }
    assert compareTo[..i] == compareTo;
    link := RStrip(link, '&');
  }

  /** Appending one parameter to the concatenation. */
  lemma ParamsSnoc(key: string, values: seq<string>, v: string, suffix: string)
    ensures Params(key, values + [v], suffix) == Params(key, values, suffix) + key + v + suffix
  {
    assert (values + [v])[..|values|] == values;
  }

  /** With at least one value, the concatenation is the joined query plus one trailing `&`. */
  lemma {:induction false} ParamsJoinQuery(key: string, values: seq<string>)
    requires values != []
    ensures Params(key, values, "&") == JoinQuery(key, values) + "&"
    decreases |values|
  {
    var init := values[..|values| - 1];
    if |values| > 1 {
      ParamsJoinQuery(key, init);
      assert init[..|init| - 1] == values[..|values| - 2];
    } else {
      assert init == [];
    }
  }

  /** A joined query ends with its last value, or with the key when that value is empty. */
  lemma JoinQueryEnd(key: string, values: seq<string>)
    requires values != []
    ensures var q := JoinQuery(key, values);
            var last := values[|values| - 1];
            |q| >= |key| + |last| && q[|q| - |last|..] == last && q[|q| - |last| - |key|..|q| - |last|] == key
  {
  }

  /**
   * As long as the last compared identifier does not end in `&`, stripping the
   * trailing `&` leaves exactly the `&`-joined query: one `compare_to` per
   * compared resource.
   */
  lemma CompareLinkQuery(shown: seq<Resource>)
    requires |shown| >= 2
    requires var u := shown[|shown| - 1].uuid; u == [] || u[|u| - 1] != '&'
    ensures RStrip(shown[0].path + "?" + Params(CompareKey, Uuids(shown[1..]), "&"), '&')
            == shown[0].path + "?" + JoinQuery(CompareKey, Uuids(shown[1..]))
  {
    var us := Uuids(shown[1..]);
    var q := shown[0].path + "?" + JoinQuery(CompareKey, us);
    ParamsJoinQuery(CompareKey, us);
    JoinQueryEnd(CompareKey, us);
    var last := us[|us| - 1];
    assert last == shown[|shown| - 1].uuid;
    var j := JoinQuery(CompareKey, us);
    if last == [] {
      assert j[|j| - |CompareKey|..] == CompareKey;
      assert j[|j| - 1] == '=';
    } else {
      assert j[|j| - 1] == last[|last| - 1];
    }
    assert q[|q| - 1] == j[|j| - 1];
    assert shown[0].path + "?" + Params(CompareKey, us, "&") == q + "&";
    assert (q + "&")[..|q + "&"| - 1] == q;
  }

  const ReportView := "/monthly_report"

  /** The part of the monthly report link before the resource parameters. */
  function ReportBase(url: string, today: Date): string
    requires today.year >= 0 && today.month >= 0
  {
    url + ReportView + "?year=" + NatToString(today.year) + "&month=" + NatToString(today.month)
  }

  /**
   * `monthly_report_link(context, resources)` given the context's URL and the
   * current date: empty without resources, else the report view for the
   * current year and month with a `uuid` parameter per resource, in order.
   */
  method MonthlyReportLink(url: string, today: Date, resources: seq<Resource>) returns (link: string)
    requires ValidDate(today)
    ensures resources == [] ==> link == ""
    ensures resources != [] ==> link == ReportBase(url, today) + Params("&uuid=", Uuids(resources), "")
  {
    if resources == [] {
      return "";
    }
    link := url;
    link := link + ReportView;
    link := link + "?year=" + NatToString(today.year);
    link := link + "&month=" + NatToString(today.month);
    var uuids := Uuids(resources);
    var i := 0;
    while i < |uuids|
      invariant 0 <= i <= |uuids|
      invariant link == ReportBase(url, today) + Params("&uuid=", uuids[..i], "")
    {
      assert uuids[..i + 1][..i] == uuids[..i];
      link := link + "&uuid=" + uuids[i];
      i := i + 1;
    }
    assert uuids[..i] == uuids;
  }

  /** Where the year's digits start in the link. */
  function YearAt(url: string): nat {
    |url| + |ReportView| + |"?year="|
  }

  /** Where the month's digits start in the link. */
  function MonthAt(url: string, today: Date): nat
    requires today.year >= 0
  {
    YearAt(url) + |NatToString(today.year)| + |"&month="|
  }

  /** The year and the month read back from the link. */
  lemma ReportBaseReadsBack(url: string, today: Date)
    requires ValidDate(today)
    ensures var b := ReportBase(url, today);
            YearAt(url) + |NatToString(today.year)| <= MonthAt(url, today) <= |b|
            && ParseDigits(b[YearAt(url)..YearAt(url) + |NatToString(today.year)|]) == today.year
            && ParseDigits(b[MonthAt(url, today)..]) == today.month
  {
    var ys := NatToString(today.year);
    var ms := NatToString(today.month);
    var head := url + ReportView + "?year=";
    var mid := head + ys + "&month=";
    assert ReportBase(url, today) == mid + ms;
    assert (mid + ms)[|mid|..] == ms;
    assert mid[|head|..|head| + |ys|] == ys;
    assert (mid + ms)[|head|..|head| + |ys|] == ys;
    ParseNatToString(today.year);
    ParseNatToString(today.month);
  }

  // ---------------------------------------------------------------------
  // mock_data_dictionary

  /** One record of the additional-data structure. */
  datatype Record<V> = Record(key: string, sortkey: nat, value: V, desc: string)

  /** A form set: its description, its interface name and its records. */
  datatype Formset<V> = Formset(desc: string, iface: string, values: seq<Record<V>>)

  const MockInterface := "mockinterface"

  /** `order` lists every key of `data` exactly once: the iteration order of `data.items()`. */
  ghost predicate ListsKeys<V>(data: map<string, V>, order: seq<string>) {
    (forall k :: k in data <==> k in order)
    && forall i, j :: 0 <= i < j < |order| ==> order[i] != order[j]
  }

  /**
   * `mock_data_dictionary(data, formset_key, formset_desc)`: one form set
   * under `formsetKey` whose records list the items of `data` in iteration
   * order, numbered from 0. The source's defaults `formset_key='mock'` and
   * `formset_desc='Mocktest'` are not built in: callers pass both.
   */
  method MockDataDictionary<V>(data: map<string, V>, order: seq<string>, formsetKey: string, formsetDesc: string)
    returns (result: map<string, Formset<V>>)
    requires ListsKeys(data, order)
    ensures result.Keys == {formsetKey}
    ensures result[formsetKey].desc == formsetDesc && result[formsetKey].iface == MockInterface
    ensures var records := result[formsetKey].values;
            |records| == |order|
            && forall i :: 0 <= i < |records| ==>
                 records[i] == Record(order[i], i, data[order[i]], order[i])
  {
    var records: seq<Record<V>> := [];
    var i := 0;
    while i < |order|
      invariant 0 <= i <= |order|
      invariant |records| == i
      invariant forall j :: 0 <= j < i ==> records[j] == Record(order[j], j, data[order[j]], order[j])
    {
      records := records + [Record(order[i], i, data[order[i]], order[i])];
      i := i + 1;
    }
    DistinctKeysCount(data, order);
    result := map[formsetKey := Formset(formsetDesc, MockInterface, records)];
  }

  /** A key listing without repeats is as long as the map. */
  lemma DistinctKeysCount<V>(data: map<string, V>, order: seq<string>)
    requires ListsKeys(data, order)
    ensures |order| == |data|
  {
    var ks := set i | 0 <= i < |order| :: order[i];
    assert ks == data.Keys;
    IndexSetSize(order);
  }

  lemma {:induction false} IndexSetSize(order: seq<string>)
    requires forall i, j :: 0 <= i < j < |order| ==> order[i] != order[j]
    ensures |set i | 0 <= i < |order| :: order[i]| == |order|
  {
    if order != [] {
      var init := order[..|order| - 1];
      IndexSetSize(init);
      var s := set i | 0 <= i < |order| :: order[i];
      var t := set i | 0 <= i < |init| :: init[i];
      assert s == t + {order[|order| - 1]};
      assert order[|order| - 1] !in t;
    }
  }

  /** Each key of the data has exactly one record, which carries its value and description. */
  lemma MockRecordsCoverData<V>(data: map<string, V>, order: seq<string>, records: seq<Record<V>>, k: string)
    requires ListsKeys(data, order)
    requires |records| == |order|
    requires forall i :: 0 <= i < |records| ==> records[i] == Record(order[i], i, data[order[i]], order[i])
    requires k in data
    ensures exists i :: 0 <= i < |records| && records[i].key == k && records[i].value == data[k] && records[i].desc == k
    ensures forall i, j :: 0 <= i < |records| && 0 <= j < |records| && records[i].key == k && records[j].key == k ==> i == j
  {
    var i :| 0 <= i < |order| && order[i] == k;
    assert records[i].key == k;
  }
}
