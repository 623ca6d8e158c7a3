/** The `java.lang.String` operations the chat engine relies on, for the
    single-character separators it uses (`" "` and `","`). For such a
    separator `String.split` does a literal scan rather than a regular
    expression match, and that literal behaviour is what is modelled here. */
module JavaText {

  predicate StartsWith(s: string, prefix: string)
  {
    |prefix| <= |s| && s[..|prefix|] == prefix
  }

  /** `s.indexOf(c)`, except that "not found" is `|s|` instead of `-1`. */
  function IndexOf(s: string, c: char): (i: nat)
    ensures i <= |s|
    ensures i < |s| ==> s[i] == c
    ensures forall j :: 0 <= j < i ==> s[j] != c
    ensures i == |s| <==> c !in s
  {
    if |s| == 0 then 0
    else if s[0] == c then 0
    else 1 + IndexOf(s[1..], c)
  }

  /** The first occurrence of `c` after a prefix free of `c`. */
  lemma IndexOfAfterPrefix(p: string, c: char, t: string)
    requires c !in p
    ensures IndexOf(p + [c] + t, c) == |p|
  {
    var s := p + [c] + t;
    assert s[|p|] == c;
    assert forall j :: 0 <= j < |p| ==> s[j] == p[j];
  }

  /** Every field between occurrences of `sep`, empty ones included: what
      `split` computes before it drops trailing empty fields. */
  function Fields(s: string, sep: char): (r: seq<string>)
    ensures |r| >= 1
    ensures forall k :: 0 <= k < |r| ==> sep !in r[k]
    decreases |s|
  {
    var i := IndexOf(s, sep);
    if i == |s| then [s]
    else [s[..i]] + Fields(s[i + 1..], sep)
  }

  /** `String.join(sep, parts)`. */
  function Join(parts: seq<string>, sep: string): string
  {
    if |parts| == 0 then ""
    else if |parts| == 1 then parts[0]
    else parts[0] + sep + Join(parts[1..], sep)
  }

  /** Joining the fields back with the separator restores the text. */
  lemma {:induction false} JoinFields(s: string, sep: char)
    ensures Join(Fields(s, sep), [sep]) == s
    decreases |s|
  {
    var i := IndexOf(s, sep);
    if i < |s| {
      var p, t := s[..i], s[i + 1..];
      assert s == p + [sep] + t;
      assert sep !in p by {
        forall j | 0 <= j < |p| ensures p[j] != sep {
          assert p[j] == s[j];
        }
      }
      FieldsCons(p, sep, t);
      JoinFields(t, sep);
      assert ([p] + Fields(t, sep))[1..] == Fields(t, sep);
    }
  }

  /** A separator-free first field is split off as it is. */
  lemma FieldsCons(p: string, sep: char, t: string)
    requires sep !in p
    ensures Fields(p + [sep] + t, sep) == [p] + Fields(t, sep)
  {
    var s := p + [sep] + t;
    IndexOfAfterPrefix(p, sep, t);
    assert s[..|p|] == p;
    assert s[|p| + 1..] == t;
  }

  /** Splitting a join of separator-free parts gives the parts back. */
  lemma {:induction false} FieldsJoin(parts: seq<string>, sep: char)
    requires |parts| >= 1
    requires forall k :: 0 <= k < |parts| ==> sep !in parts[k]
    ensures Fields(Join(parts, [sep]), sep) == parts
    decreases |parts|
  {
    if |parts| > 1 {
      var tail := Join(parts[1..], [sep]);
      assert Join(parts, [sep]) == parts[0] + [sep] + tail;
      FieldsCons(parts[0], sep, tail);
      FieldsJoin(parts[1..], sep);
      assert parts == [parts[0]] + parts[1..];
    } else {
      assert IndexOf(parts[0], sep) == |parts[0]|;
    }
  }

  /** Removes the empty strings at the end of `r`. */
  function DropTrailingEmpty(r: seq<string>): (t: seq<string>)
    ensures |t| <= |r| && t == r[..|t|]
    ensures forall k :: |t| <= k < |r| ==> r[k] == ""
    ensures |t| == 0 || t[|t| - 1] != ""
  {
    if |r| == 0 then r
    else if r[|r| - 1] == "" then DropTrailingEmpty(r[..|r| - 1])
    else r
  }

  /** `s.split(sep)` (limit 0): every field, except that trailing empty
      fields are dropped; a text without the separator is returned whole,
      so `"".split(sep)` is `[""]`. */
  function Split(s: string, sep: char): (r: seq<string>)
    ensures forall k :: 0 <= k < |r| ==> sep !in r[k]
    ensures sep !in s ==> r == [s]
    ensures sep in s ==> |r| <= |Fields(s, sep)| && r == Fields(s, sep)[..|r|]
    ensures sep in s ==> forall k :: |r| <= k < |Fields(s, sep)| ==> Fields(s, sep)[k] == ""
    ensures sep in s ==> |r| == 0 || r[|r| - 1] != ""
  {
    if sep !in s then [s] else DropTrailingEmpty(Fields(s, sep))
  }

  /** `s.split(sep, 2)`: the text before the first separator and the text
      after it, or the whole text when there is no separator. Trailing
      empty fields are kept under a positive limit. */
  function SplitOnce(s: string, sep: char): (r: seq<string>)
    ensures 1 <= |r| <= 2
    ensures |r| == 2 <==> sep in s
    ensures |r| == 1 ==> r[0] == s
    ensures |r| == 2 ==> sep !in r[0] && r[0] + [sep] + r[1] == s
  {
    var i := IndexOf(s, sep);
    if i == |s| then [s]
    else
      assert s == s[..i] + [sep] + s[i + 1..];
      [s[..i], s[i + 1..]]
  }

  /** The text a `StringBuilder` holds after appending, for each name in
      order, the name and then `terminator`. */
  function Listing(names: seq<string>, terminator: string): string
  {
    if |names| == 0 then "" else names[0] + terminator + Listing(names[1..], terminator)
  }

  /** Appending one more name extends the listing at its end. */
  lemma {:induction false} ListingAppend(names: seq<string>, name: string, terminator: string)
    ensures Listing(names + [name], terminator) == Listing(names, terminator) + name + terminator
    decreases |names|
  {
    if |names| == 0 {
      assert Listing([name], terminator) == name + terminator + Listing([], terminator);
    } else {
      assert (names + [name])[1..] == names[1..] + [name];
      ListingAppend(names[1..], name, terminator);
    }
  }
}
