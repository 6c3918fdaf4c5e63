/**
 * The parts of Ruby's String and Array behaviour the helpers rely on:
 * `Array#join`, `String#split` with a one-character separator, and `Array#first`.
 */
module RubyString {
  import opened Wrappers
  import opened Strings

  /** `parts.join(sep)`: the parts with `sep` between neighbours; `[]` joins to "". */
  function Join(parts: seq<string>, sep: string): string
  {
    if |parts| == 0 then ""
    else if |parts| == 1 then parts[0]
    else parts[0] + sep + Join(parts[1..], sep)
  }

  /** Joining two strings puts the separator between them once. */
  lemma JoinPair(a: string, b: string, sep: string)
    ensures Join([a, b], sep) == a + sep + b
  {
    assert [a, b][1..] == [b];
  }

  /**
   * Every field of `s` between occurrences of `sep`, including empty ones and
   * the trailing ones: the list Ruby builds before it drops trailing empties.
   */
  function Fields(s: string, sep: char): (fields: seq<string>)
    decreases |s|
    ensures |fields| >= 1
    ensures forall k :: 0 <= k < |fields| ==> sep !in fields[k]
    ensures IsPrefix(fields[0], s)
    ensures |fields[0]| == |s| || s[|fields[0]|] == sep
  {
    if |s| == 0 then [""]
    else
      var rest := Fields(s[1..], sep);
      if s[0] == sep then [""] + rest
      else [[s[0]] + rest[0]] + rest[1..]
  }

  /** Removes the empty strings at the end of `fields`, as `String#split` does. */
  function DropTrailingEmpty(fields: seq<string>): (r: seq<string>)
    ensures |r| <= |fields| && r == fields[..|r|]
    ensures |r| == 0 || r[|r| - 1] != ""
    ensures forall k :: |r| <= k < |fields| ==> fields[k] == ""
    ensures |r| == 0 <==> forall k :: 0 <= k < |fields| ==> fields[k] == ""
  {
    if |fields| == 0 || fields[|fields| - 1] != "" then fields
    else DropTrailingEmpty(fields[..|fields| - 1])
  }

  /** `s.split(sep)` for a one-character string separator. */
  function Split(s: string, sep: char): seq<string>
  {
    DropTrailingEmpty(Fields(s, sep))
  }

  /** `xs.first`: nil for an empty array. */
  function First(xs: seq<string>): (r: Option<string>)
    ensures r.None? <==> |xs| == 0
    ensures r.Some? ==> r.value == xs[0]
  {
    if |xs| == 0 then None else Some(xs[0])
  }

  /** Joining the raw fields with the separator gives back the string: `Fields` loses nothing. */
  lemma {:induction false} FieldsJoin(s: string, sep: char)
    ensures Join(Fields(s, sep), [sep]) == s
    decreases |s|
  {
    if |s| > 0 {
      var rest := Fields(s[1..], sep);
      FieldsJoin(s[1..], sep);
      var fields := Fields(s, sep);
      if s[0] == sep {
        assert fields[1..] == rest;
        assert s == [sep] + s[1..];
      } else {
        assert fields[0] == [s[0]] + rest[0];
        assert fields[1..] == rest[1..];
        if |rest| == 1 {
          assert s == [s[0]] + s[1..];
        } else {
          assert Join(rest, [sep]) == rest[0] + [sep] + Join(rest[1..], [sep]);
          assert s == [s[0]] + s[1..];
        }
      }
    }
  }

  /** Every raw field is empty exactly when the string is made of separators alone. */
  lemma {:induction false} FieldsAllEmpty(s: string, sep: char)
    ensures (forall k :: 0 <= k < |Fields(s, sep)| ==> Fields(s, sep)[k] == "") <==> AllChar(s, sep)
    decreases |s|
  {
    if |s| > 0 {
      var rest := Fields(s[1..], sep);
      FieldsAllEmpty(s[1..], sep);
      var fields := Fields(s, sep);
      if s[0] == sep {
        assert fields[1..] == rest;
        if AllChar(s[1..], sep) {
          forall k | 0 <= k < |s| ensures s[k] == sep {
            if k > 0 { assert s[k] == s[1..][k - 1]; }
          }
        }
        if AllChar(s, sep) {
          forall k | 0 <= k < |s[1..]| ensures s[1..][k] == sep {
            assert s[1..][k] == s[k + 1];
          }
        }
        if forall k :: 0 <= k < |fields| ==> fields[k] == "" {
          forall k | 0 <= k < |rest| ensures rest[k] == "" {
            assert rest[k] == fields[k + 1];
          }
        }
      } else {
        assert fields[0] == [s[0]] + rest[0];
        assert fields[0] != "";
        assert !AllChar(s, sep);
      }
    }
  }

  /**
   * `s.split(sep).first` is nil exactly when `s` holds nothing but separators
   * (the empty string included); otherwise it is the longest prefix of `s`
   * free of `sep`.
   */
  lemma SplitFirst(s: string, sep: char)
    ensures First(Split(s, sep)).None? <==> AllChar(s, sep)
    ensures First(Split(s, sep)).Some? ==>
      var f := First(Split(s, sep)).value;
      IsPrefix(f, s) && sep !in f && (|f| == |s| || s[|f|] == sep)
  {
    FieldsAllEmpty(s, sep);
    if AllChar(s, sep) {
      assert Split(s, sep) == [];
    } else {
      assert Split(s, sep)[0] == Fields(s, sep)[0];
    }
  }
}
