/**
 * The `title_tag` helper: the text of a page's `<title>` element, the page's
 * own front-matter title followed by the site name, or the site name alone.
 */
module TitleTag {
  import opened Wrappers
  import opened Strings
  import opened RubyString

  /** A front-matter value as YAML hands it to Ruby; `List` is an Array. */
  datatype Value = Nil | Bool(b: bool) | Text(s: string) | List(items: seq<Value>)

  /** Ruby truthiness: everything except `nil` and `false`, so "" is truthy. */
  predicate Truthy(v: Value) {
    !(v.Nil? || v == Bool(false))
  }

  /**
   * The text `Array#join(sep)` writes for one element: nil as "", other
   * scalars by `to_s`, and a nested array joined with the same `sep`.
   */
  function JoinElement(v: Value, sep: string): string
    decreases v
  {
    match v
    case Nil => ""
    case Bool(b) => if b then "true" else "false"
    case Text(s) => s
    case List(items) => JoinElements(items, sep)
  }

  /** `items.join(sep)` for an array of front-matter values. */
  function JoinElements(items: seq<Value>, sep: string): string
    decreases items
  {
    if |items| == 0 then ""
    else if |items| == 1 then JoinElement(items[0], sep)
    else JoinElement(items[0], sep) + sep + JoinElements(items[1..], sep)
  }

  /** A page of the site, reduced to the front-matter title its data carries. */
  datatype Page = Page(title: Value)

  const SiteName: string := "work.stevegrossi.com"
  const Separator: string := " | "

  /**
   * The title text handed to `content_tag(:title, ...)`; `current` is None
   * when no page is being rendered, the case `try` guards against.
   */
  function PageTitle(current: Option<Page>): (r: string)
    ensures current.None? ==> r == SiteName
    ensures current.Some? && !Truthy(current.value.title) ==> r == SiteName
    ensures current.Some? && Truthy(current.value.title) ==>
      r == JoinElement(current.value.title, Separator) + Separator + SiteName
    ensures IsSuffix(SiteName, r) && |r| >= |SiteName|
  {
    var title := SiteName;
    if current.Some? && Truthy(current.value.title) then
      JoinPair(JoinElement(current.value.title, Separator), title, Separator);
      Join([JoinElement(current.value.title, Separator), title], Separator)
    else
      title
  }

  /** The page title a computed title text was built from, if any. */
  function RecoverPageTitle(r: string): Option<string>
  {
    var suffix := Separator + SiteName;
    if IsSuffix(suffix, r) then Some(r[..|r| - |suffix|]) else None
  }

  /**
   * The title text determines the page's title: it reads back as the page's
   * title exactly when that title is truthy, and as nothing otherwise.
   */
  lemma RecoverPageTitleInverts(current: Option<Page>)
    ensures RecoverPageTitle(PageTitle(current)) ==
      if current.Some? && Truthy(current.value.title)
      then Some(JoinElement(current.value.title, Separator)) else None
  {
    var suffix := Separator + SiteName;
    if current.Some? && Truthy(current.value.title) {
      var t := JoinElement(current.value.title, Separator);
      assert PageTitle(current) == t + suffix;
      assert (t + suffix)[..|t|] == t;
    }
  }

  /** Two pages with truthy titles get the same title text only if their titles print alike. */
  lemma PageTitleInjective(p: Page, q: Page)
    requires Truthy(p.title) && Truthy(q.title)
    requires PageTitle(Some(p)) == PageTitle(Some(q))
    ensures JoinElement(p.title, Separator) == JoinElement(q.title, Separator)
  {
    RecoverPageTitleInverts(Some(p));
    RecoverPageTitleInverts(Some(q));
  }

  /** An empty title is truthy in Ruby, so it is not replaced by the site name. */
  lemma EmptyTitleIsKept()
    ensures PageTitle(Some(Page(Text("")))) == " | work.stevegrossi.com"
  {
  }

  /** An array title is flattened by `join`: its elements, then the site name, all separated by " | ". */
  lemma ArrayTitleIsJoined(a: string, b: string)
    ensures PageTitle(Some(Page(List([Text(a), Text(b)])))) == a + Separator + b + Separator + SiteName
  {
    var items := [Text(a), Text(b)];
    assert items[1..] == [Text(b)];
    assert JoinElements(items[1..], Separator) == JoinElement(Text(b), Separator) == b;
    assert JoinElements(items, Separator) == a + Separator + b;
  }

  /** An empty array is truthy, and joins to "". */
  lemma EmptyArrayTitleIsKept()
    ensures PageTitle(Some(Page(List([])))) == Separator + SiteName
  {
    assert JoinElement(List([]), Separator) == "";
  }
}
