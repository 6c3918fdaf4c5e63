/**
 * The `work_image` helper: the absolute URL of an image stored beside a work
 * entry, and the options handed on to `image_tag` with a CSS class derived
 * from the image's file name.
 */
module WorkImage {
  import opened Wrappers
  import opened Strings
  import opened RubyString
  import opened Decimal
  import opened Strftime

  /** A work entry, reduced to the date and slug its directory is named after. */
  datatype Article = Article(date: Date, slug: string)

  /** The `image_tag` options hash; a None value is a key bound to `nil`. */
  type Options = map<string, Option<string>>

  /** The arguments `work_image` passes to `image_tag`. */
  datatype ImageTagArgs = ImageTagArgs(url: string, options: Options)

  const WorkRoot: string := "/work/"
  const ClassKey: string := "class"

  /** The entry's directory, `YYYY-MM-DD-<slug>/`. */
  function ArticleDir(a: Article): string
  {
    FormatYmd(a.date) + "-" + a.slug + "/"
  }

  /** The image's absolute URL, under `/work/` and ending in the file name itself. */
  function ImageUrl(a: Article, image: string): (url: string)
    ensures IsPrefix(WorkRoot, url) && IsSuffix(image, url)
  {
    WorkRoot + ArticleDir(a) + image
  }

  /** `image.split('.').first`: nil for "" and for a name made of dots alone. */
  function ImageClass(image: string): Option<string>
  {
    First(Split(image, '.'))
  }

  /** `work_image(article, image, options)`, up to the HTML `image_tag` renders. */
  function WorkImage(a: Article, image: string, options: Options): (r: ImageTagArgs)
    ensures r.url == ImageUrl(a, image)
    ensures ClassKey in r.options && r.options[ClassKey] == ImageClass(image)
    ensures r.options.Keys == options.Keys + {ClassKey}
    ensures forall k :: k in options && k != ClassKey ==> r.options[k] == options[k]
  {
    ImageTagArgs(ImageUrl(a, image), options[ClassKey := ImageClass(image)])
  }

  /** Reads a work image URL back into its entry and file name. */
  function ParseImageUrl(url: string): Option<(Article, string)>
  {
    if IsPrefix(WorkRoot, url) && |url| >= 17 && url[16] == '-' then
      match ParseYmd(url[6..16])
      case None => None
      case Some(d) =>
        var rest := url[17..];
        match IndexOf(rest, '/')
        case None => None
        case Some(j) => Some((Article(d, rest[..j]), rest[j + 1..]))
    else None
  }

  /**
   * The URL spelled out: `/work/`, the zero-padded date, '-', the slug, '/',
   * and the image's file name.
   */
  lemma ImageUrlLayout(a: Article, image: string)
    ensures ImageUrl(a, image) ==
      "/work/" + Pad(a.date.year, 4) + "-" + Pad(a.date.month, 2) + "-" + Pad(a.date.day, 2)
      + "-" + a.slug + "/" + image
  {
    Reassociate(WorkRoot, Pad(a.date.year, 4), Pad(a.date.month, 2), Pad(a.date.day, 2), a.slug, image);
  }

  lemma Reassociate(root: string, y: string, m: string, d: string, slug: string, image: string)
    ensures root + (y + "-" + m + "-" + d + "-" + slug + "/") + image
      == root + y + "-" + m + "-" + d + "-" + slug + "/" + image
  {
  }

  /**
   * For a calendar date with a four-digit year and a slug without '/', the
   * URL determines the entry and the file name: it reads back as both.
   */
  lemma ImageUrlRoundTrip(a: Article, image: string)
    requires IsCalendarDate(a.date) && HasFourDigitYear(a.date)
    requires '/' !in a.slug
    ensures ParseImageUrl(ImageUrl(a, image)) == Some((a, image))
  {
    var ymd := FormatYmd(a.date);
    assert ImageUrl(a, image) == WorkRoot + ymd + "-" + (a.slug + "/" + image);
    ParseFormatYmd(a.date);
    ParseImageUrlOf(ymd, a.date, a.slug, image);
  }

  /** Parsing a URL assembled from a date segment, a '/'-free slug and a file name. */
  lemma ParseImageUrlOf(ymd: string, d: Date, slug: string, image: string)
    requires |ymd| == 10 && ParseYmd(ymd) == Some(d)
    requires '/' !in slug
    ensures ParseImageUrl(WorkRoot + ymd + "-" + (slug + "/" + image)) == Some((Article(d, slug), image))
  {
    var rest := slug + "/" + image;
    var url := WorkRoot + ymd + "-" + rest;
    UrlFields(WorkRoot, ymd, rest);
    assert IsPrefix(WorkRoot, url);
    IndexOfAfter(slug, '/', image);
    assert rest[..|slug|] == slug;
    assert rest[|slug| + 1..] == image;
  }

  /** Splitting `/work/YYYY-MM-DD-rest` at the fixed positions of its parts. */
  lemma UrlFields(root: string, ymd: string, rest: string)
    requires |root| == 6 && |ymd| == 10
    ensures var url := root + ymd + "-" + rest;
      |url| >= 17 && url[..6] == root && url[6..16] == ymd && url[16] == '-' && url[17..] == rest
  {
  }

  /**
   * The derived class: nil exactly when the name is empty or all dots;
   * otherwise the part of the name before its first '.', which holds no '.'
   * and is a prefix of the name. A non-empty name without '.' is its own class.
   */
  lemma ImageClassSpec(image: string)
    ensures ImageClass(image).None? <==> AllChar(image, '.')
    ensures ImageClass(image).Some? ==>
      var c := ImageClass(image).value;
      IsPrefix(c, image) && '.' !in c && (|c| == |image| || image[|c|] == '.')
    ensures '.' !in image && image != "" ==> ImageClass(image) == Some(image)
  {
    SplitFirst(image, '.');
    if '.' !in image && image != "" {
      assert image[0] != '.';
      var c := ImageClass(image).value;
      assert forall k :: 0 <= k < |image| ==> image[k] != '.';
      assert |c| == |image|;
      assert c == image[..|c|];
      assert image[..|image|] == image;
    }
  }

  /**
   * The class is the substring before the first '.', or the whole name when
   * it has none, for every name that is not empty or all dots.
   */
  lemma ImageClassIsBeforeFirstDot(image: string)
    requires !AllChar(image, '.')
    ensures ImageClass(image) ==
      Some(match IndexOf(image, '.') case None => image case Some(i) => image[..i])
  {
    ImageClassSpec(image);
    var c := ImageClass(image).value;
    assert c == image[..|c|];
    match IndexOf(image, '.')
    case None =>
      assert |c| == |image|;
      assert image[..|image|] == image;
    case Some(i) =>
      assert image[i] == '.';
      assert forall k :: 0 <= k < i ==> image[..i][k] == image[k];
      assert |c| == i;
  }

  /** Example: a 2021-03-05 entry "redesign" showing "hero.png". */
  lemma HeroUrlExample()
    ensures ImageUrl(Article(Date(2021, 3, 5), "redesign"), "hero.png")
      == "/work/2021-03-05-redesign/hero.png"
  {
    FormatYmdExample();
    HeroUrlText(FormatYmd(Date(2021, 3, 5)));
  }

  lemma HeroUrlText(ymd: string)
    requires ymd == "2021-03-05"
    ensures WorkRoot + (ymd + "-" + "redesign" + "/") + "hero.png" == "/work/2021-03-05-redesign/hero.png"
  {
  }

  /** A file name with an extension: the class is the name before the first '.'. */
  lemma ImageClassOfExtension(name: string, ext: string)
    requires '.' !in name && name != ""
    ensures ImageClass(name + "." + ext) == Some(name)
  {
    var image := name + "." + ext;
    ImageClassSpec(image);
    assert image[0] == name[0];
    assert image[|name|] == '.';
    var c := ImageClass(image).value;
    assert forall k :: 0 <= k < |name| ==> image[k] == name[k];
    assert c == image[..|c|];
    assert |c| == |name|;
    assert image[..|name|] == name;
  }

  /** The class derived from "hero.png" is "hero". */
  lemma HeroClassExample()
    ensures ImageClass("hero.png") == Some("hero")
  {
    var name, ext := "hero", "png";
    ImageClassOfExtension(name, ext);
    assert name + "." + ext == "hero.png";
  }
}
