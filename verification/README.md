# The helpers of a Middleman site configuration, in Dafny

The site `work.stevegrossi.com` is built by Middleman from one configuration
file, `config.rb`. Nearly all of that file is declarative options for plugins
(the blog collections, pagination, minification, asset fingerprinting). The
logic the file writes itself is small. It is three pure string computations,
and this project models and proves them:

- `title_tag` builds the text of a page's `<title>` element. That text is the
  page's front-matter title, then `" | "`, then the site name. With no current
  page, or a `nil`/`false` title, it is the site name alone (`TitleTag`).
- `work_image` builds the absolute URL of an image kept beside a work entry:
  `/work/YYYY-MM-DD-<slug>/<image>`. It also sets the image tag's `class`
  option to `image.split('.').first` (`WorkImage`). That step rests on models
  of `Time#strftime('%Y-%m-%d')` (`Strftime`, `Decimal`) and of Ruby's
  `String#split`, `Array#join` and `Array#first` (`RubyString`).
- The `ignore` pattern `/work\/|javascripts\/(lang|prett)/` of asset
  fingerprinting decides which assets keep their names (`AssetHash`).

Strings are `seq<char>`. Ruby's `nil` is `Option.None`. A front-matter value
is `Nil`, `Bool`, `Text` or `List` (an Array), which keeps Ruby truthiness
and the recursive flattening of `Array#join` exact. The options
hash is a `map<string, Option<string>>`, whose keys stand for Ruby symbols.

An empty title is truthy in Ruby (only `nil` and `false` are not), so it is
kept: the text is `" | work.stevegrossi.com"` (`TitleTag.EmptyTitleIsKept`).

## Model

| member | source | states |
|---|---|---|
| TitleTag.PageTitle | config.rb:74-80 | with no current page, or a nil/false title, the text is exactly the site name; with a truthy title it is the title's join text (arrays flattened), " \| ", then the site name; it always ends with the site name and is never shorter than it |
| TitleTag.RecoverPageTitleInverts | config.rb:75-78 | the title text reads back as the page's title exactly when that title is truthy, and as nothing otherwise |
| TitleTag.PageTitleInjective | config.rb:75-78 | two pages with truthy titles get the same title text only if their titles join to the same text |
| TitleTag.EmptyTitleIsKept | config.rb:76-77 | an empty title is truthy, so the text is " \| work.stevegrossi.com" |
| TitleTag.ArrayTitleIsJoined | config.rb:76-77 | an array title is flattened by join: its elements, then the site name, each pair separated by " \| " |
| TitleTag.EmptyArrayTitleIsKept | config.rb:76-77 | an empty array title is truthy and joins to "", so the text is " \| " followed by the site name |
| TitleTag.Truthy | config.rb:76 | the guard of the title: false only for nil and false; `PageTitle` and `EmptyTitleIsKept` state its effect |
| TitleTag.JoinElement | config.rb:77 | the text join writes for a title value: nil as "", a nested array joined with the same separator (`ArrayTitleIsJoined`, `EmptyArrayTitleIsKept`) |
| RubyString.Join | config.rb:77 | `Array#join`; `JoinPair` states the two-element case the helper uses and `FieldsJoin` shows it inverts splitting |
| RubyString.JoinPair | config.rb:77 | joining two strings puts the separator between them exactly once |
| WorkImage.WorkImage | config.rb:83-88 | image_tag receives the image URL; its options map `class` to the derived class, overriding an earlier value; every other key keeps its value; no key is added besides `class` |
| WorkImage.ImageUrl | config.rb:84-85 | the URL starts with "/work/" and ends with the image's file name |
| WorkImage.ArticleDir | config.rb:84 | the entry directory `YYYY-MM-DD-<slug>/`; `ImageUrlRoundTrip` shows the date and slug are read back from it |
| WorkImage.ImageUrlRoundTrip | config.rb:84-85 | for a calendar date with a four-digit year and a slug without '/', the URL reads back as the same entry and file name, so distinct entries or files get distinct URLs |
| WorkImage.ParseImageUrlOf | config.rb:84-85 | a URL built from a date segment, a slug without '/' and a file name parses back into those parts |
| WorkImage.ImageClassSpec | config.rb:86 | the class is nil exactly when the file name is empty or all dots; otherwise it is the part before the first '.', holds no '.' and is a prefix of the name; a non-empty name without '.' is its own class |
| WorkImage.ImageClassOfExtension | config.rb:86 | for a non-empty name without '.', the class of name + "." + extension is the name |
| WorkImage.ImageClassIsBeforeFirstDot | config.rb:86 | for a name that is not empty or all dots, the class is the substring before the first '.', or the whole name when it has no '.' |
| WorkImage.ImageClass | config.rb:86 | `image.split('.').first`; its meaning is stated by `ImageClassSpec` and `ImageClassIsBeforeFirstDot` |
| WorkImage.HeroUrlExample | config.rb:84-85 | the entry "redesign" of 2021-03-05 puts "hero.png" at "/work/2021-03-05-redesign/hero.png" |
| WorkImage.HeroClassExample | config.rb:86 | the class derived from "hero.png" is "hero" |
| Strftime.FormatYmdShape | config.rb:84 | for a calendar date with a year of at most 9999 the date segment is 10 characters, with '-' at positions 4 and 7 and digits elsewhere |
| Strftime.ParseFormatYmd | config.rb:84 | for such a date the segment reads back as the same date, so distinct dates give distinct directories |
| Strftime.FormatYmdExample | config.rb:84 | 5 March 2021 formats as "2021-03-05" |
| Strftime.FormatYmd | config.rb:84 | `strftime('%Y-%m-%d')` is never shorter than 10 characters; `FormatYmdShape` and `ParseFormatYmd` state its layout and that it reads back |
| Decimal.Pad | config.rb:84 | zero padding to at least the width: all digits, ending in the number's own digits, preceded only by '0' |
| Decimal.ValueOfPad | config.rb:84 | zero-padding a number keeps its value: the padded digits read back as the number |
| Decimal.PadWidth | config.rb:84 | a number below 10^w pads to exactly w characters |
| Decimal.ValueOfDigits | config.rb:84 | the decimal digits of a number read back as that number |
| RubyString.Fields | config.rb:86 | the raw split fields hold no separator, there is at least one, and the first is the longest separator-free prefix of the string |
| RubyString.DropTrailingEmpty | config.rb:86 | split keeps a prefix of the raw fields; it drops only empty fields; the result is empty exactly when every field is empty |
| RubyString.FieldsJoin | config.rb:86 | joining the raw fields with the separator gives back the original string |
| RubyString.FieldsAllEmpty | config.rb:86 | every raw field is empty exactly when the string consists of separators only |
| RubyString.SplitFirst | config.rb:86 | `s.split(sep).first` is nil exactly when s is all separators; otherwise it is the longest separator-free prefix of s |
| RubyString.Split | config.rb:86 | `String#split` with a one-character separator: the raw fields less the trailing empty ones (`DropTrailingEmpty`, `SplitFirst`) |
| RubyString.First | config.rb:86 | `Array#first`: nil exactly for an empty array, otherwise the first element |
| AssetHash.IgnoredIffContains | config.rb:115 | the unanchored pattern matches a path exactly when the path contains "work/", "javascripts/lang" or "javascripts/prett" |
| AssetHash.MatchesAt | config.rb:115 | the alternation `work/` or `javascripts/` followed by `lang` or `prett`, tried at one position; `IgnoredIffContains` restates it as substrings |
| AssetHash.Ignored | config.rb:115 | the unanchored match of the ignore pattern; `IgnoredIffContains` and `Search` state what it means |
| AssetHash.Search | config.rb:115 | trying the pattern at each position from the left finds a match exactly when the pattern matches the path |
| AssetHash.Fingerprinted | config.rb:115 | the assets renamed with a hash are exactly the listed paths the pattern does not match |

## Left out

- The two `activate :blog` blocks (config.rb:9-35) are left out. Source-pattern matching, permalink expansion, tag pages and pagination happen inside the middleman-blog plugin, which is not part of this model.
- `content_tag` and `image_tag` (config.rb:79, 87) are left out because they only render HTML. The model stops at the text and the options handed to them.
- `Time.zone` (config.rb:7) is left out. A date enters the model already resolved to year, month and day.
- Negative (BCE) years are left out. `Date.year` is a `nat`, so Ruby's sign handling in `%Y` is not modelled.
- TitleTag.PageTitle: front-matter numbers and dates are not separate values; they appear as `Text` holding what their `to_s` produces. Nil, booleans, strings and arrays (flattened by `join`) are modelled as Ruby treats them.
- WorkImage.WorkImage: `options[:class] = ...` changes the caller's hash in place, and a Ruby Hash keeps insertion order (a new `:class` goes last, an existing one keeps its place, which fixes the attribute order `image_tag` renders). The model returns a new, unordered map, so it promises neither the caller-visible mutation nor the key order.
- WorkImage.ImageUrlRoundTrip: the reading-back holds only for years 0 to 9999 and for slugs without '/'. Wider years and such slugs are formatted but not parsed.
- Smart quotes, directory indexes, meta tags and the feed route (config.rb:37-40, 97) are left out. They are plugin toggles with no logic in this file.
- HTML, CSS and JavaScript minification, relative assets and the hash renaming itself (config.rb:100-124) are left out. They are external build plugins, and only the ignore pattern is modelled.
- The directory settings (config.rb:92-94) are left out. They are plain constants with no behaviour.
