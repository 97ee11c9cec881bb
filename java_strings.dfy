/**
 * The parts of `java.lang.String` the chat checks use: `startsWith`, and `split` with a
 * one-character separator that is not a regular-expression metacharacter (such as `" "`), which
 * Java splits literally: every occurrence separates two fields, the string itself is the only
 * field when the separator does not occur, and otherwise trailing empty fields are dropped.
 */
module JavaStrings {

  /** `s.startsWith(prefix)`. */
  predicate StartsWith(s: string, prefix: string)
  {
    |prefix| <= |s| && s[..|prefix|] == prefix
  }

  /** The position of the first occurrence of c in s (`s.indexOf(c)` when it is not -1). */
  function Find(s: string, c: char): (i: nat)
    requires c in s
    ensures i < |s| && s[i] == c
    ensures c !in s[..i]
  {
    if s[0] == c then 0
    else
      assert s == [s[0]] + s[1..];
      var j := Find(s[1..], c);
      assert s[..j + 1] == [s[0]] + s[1..][..j];
      j + 1
  }

  /** All fields of s between occurrences of sep, empty ones included. */
  function Fields(s: string, sep: char): (parts: seq<string>)
    ensures |parts| >= 1
    ensures forall k :: 0 <= k < |parts| ==> sep !in parts[k]
    decreases |s|
  {
    if sep !in s then [s]
    else
      var i := Find(s, sep);
      [s[..i]] + Fields(s[i + 1..], sep)
  }

  /** `String.join(sep, parts)`. */
  function Join(parts: seq<string>, sep: char): string
    requires |parts| >= 1
  {
    if |parts| == 1 then parts[0] else parts[0] + [sep] + Join(parts[1..], sep)
  }

  /** Joining the fields of s with their separator gives back s. */
  lemma {:induction false} JoinFields(s: string, sep: char)
    ensures Join(Fields(s, sep), sep) == s
    decreases |s|
  {
    if sep in s {
      var i := Find(s, sep);
      var rest := Fields(s[i + 1..], sep);
      JoinFields(s[i + 1..], sep);
      assert Fields(s, sep) == [s[..i]] + rest;
      assert ([s[..i]] + rest)[1..] == rest;
      assert Join(Fields(s, sep), sep) == s[..i] + [sep] + Join(rest, sep);
      assert s == s[..i] + [sep] + s[i + 1..];
    }
  }

  /** A word without the separator, then the separator, then the rest: the word is the first field. */
  lemma FieldsAfterWord(w: string, sep: char, rest: string)
    requires sep !in w
    ensures Fields(w + [sep] + rest, sep) == [w] + Fields(rest, sep)
  {
    var s := w + [sep] + rest;
    assert s[|w|] == sep;
    var i := Find(s, sep);
    if i < |w| {
      assert false;
    }
    if i > |w| {
      assert false;
    }
    assert s[..i] == w;
    assert s[i + 1..] == rest;
  }

  /** Splitting fields that hold no separator and joining them again is the identity. */
  lemma {:induction false} FieldsJoin(parts: seq<string>, sep: char)
    requires |parts| >= 1
    requires forall k :: 0 <= k < |parts| ==> sep !in parts[k]
    ensures Fields(Join(parts, sep), sep) == parts
  {
    if |parts| > 1 {
      FieldsJoin(parts[1..], sep);
      FieldsAfterWord(parts[0], sep, Join(parts[1..], sep));
      assert parts == [parts[0]] + parts[1..];
    }
  }

  /** The first field: everything before the first separator, or all of s. */
  lemma FirstField(s: string, sep: char)
    ensures sep !in s ==> Fields(s, sep)[0] == s
    ensures sep in s ==> Fields(s, sep)[0] == s[..Find(s, sep)]
  {
  }

  /** The fields without the empty ones at the end. */
  function DropTrailingEmpty(parts: seq<string>): (r: seq<string>)
    ensures |r| <= |parts| && r == parts[..|r|]
    ensures r == [] || r[|r| - 1] != []
    ensures forall k :: |r| <= k < |parts| ==> parts[k] == []
  {
    if parts != [] && parts[|parts| - 1] == [] then
      var r := DropTrailingEmpty(parts[..|parts| - 1]);
      assert parts[..|parts| - 1][..|r|] == parts[..|r|];
      r
    else parts
  }

  /** A non-empty first field is never dropped. */
  lemma DropTrailingEmptyCons(w: string, parts: seq<string>)
    requires w != []
    ensures DropTrailingEmpty([w] + parts) == [w] + DropTrailingEmpty(parts)
  {
    var r := DropTrailingEmpty([w] + parts);
    var t := DropTrailingEmpty(parts);
    assert ([w] + parts)[0] != [];
    assert r != [];
    assert r[1..] == parts[..|r| - 1];
    forall k | |r| - 1 <= k < |parts| ensures parts[k] == [] {
      assert parts[k] == ([w] + parts)[k + 1];
    }
    assert [w] + t == ([w] + parts)[..|t| + 1];
    DropTrailingEmptyUnique(parts, r[1..], t);
    assert r == [w] + r[1..];
  }

  /** At most one prefix of parts ends in a non-empty field and leaves only empty fields after it. */
  lemma DropTrailingEmptyUnique(parts: seq<string>, a: seq<string>, b: seq<string>)
    requires |a| <= |parts| && a == parts[..|a|] && (a == [] || a[|a| - 1] != [])
    requires forall k :: |a| <= k < |parts| ==> parts[k] == []
    requires |b| <= |parts| && b == parts[..|b|] && (b == [] || b[|b| - 1] != [])
    requires forall k :: |b| <= k < |parts| ==> parts[k] == []
    ensures a == b
  {
    if |a| < |b| {
      assert false;
    } else if |b| < |a| {
      assert false;
    }
  }

  /** `s.split(String.valueOf(sep))` for a separator Java splits literally. */
  function Split(s: string, sep: char): (r: seq<string>)
    ensures sep !in s ==> r == [s]
    ensures sep in s ==> |r| <= |Fields(s, sep)| && r == Fields(s, sep)[..|r|]
    ensures sep in s ==> r == [] || r[|r| - 1] != []
    ensures sep in s ==> forall k :: |r| <= k < |Fields(s, sep)| ==> Fields(s, sep)[k] == []
  {
    if sep !in s then [s] else DropTrailingEmpty(Fields(s, sep))
  }
}
