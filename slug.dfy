/**
 The `{term}_{class}` path parameter of the enroll endpoint and of the three
 instructor read endpoints. Python's `str.split(sep)` with a one-character
 separator, its inverse `sep.join(parts)`, and the parse both routers share:
 the slug is accepted exactly when the split gives two parts.
 */
module Slug {
  import opened Wrappers

  /** Number of occurrences of c in s. */
  function Occurrences(s: string, c: char): nat {
    multiset(s)[c]
  }

  /** The index of the first c in s (Python's `s.index(c)`). */
  function IndexOf(s: string, c: char): (i: nat)
    requires c in s
    ensures i < |s| && s[i] == c && c !in s[..i]
  {
    if s[0] == c then 0 else 1 + IndexOf(s[1..], c)
  }

  /** `sep.join(parts)`. */
  function Join(parts: seq<string>, sep: char): string
    requires |parts| >= 1
  {
    if |parts| == 1 then parts[0] else parts[0] + [sep] + Join(parts[1..], sep)
  }

  /** `s.split(sep)`: the maximal pieces between separators, empty pieces included. */
  function Split(s: string, sep: char): (parts: seq<string>)
    ensures |parts| == Occurrences(s, sep) + 1
    ensures forall i :: 0 <= i < |parts| ==> sep !in parts[i]
    ensures Join(parts, sep) == s
    decreases |s|
  {
    if sep !in s then [s]
    else
      var i := IndexOf(s, sep);
      assert s == s[..i] + [sep] + s[i + 1..];
      [s[..i]] + Split(s[i + 1..], sep)
  }

  /** Splitting undoes joining pieces that hold no separator. */
  lemma {:induction false} SplitJoin(parts: seq<string>, sep: char)
    requires |parts| >= 1
    requires forall i :: 0 <= i < |parts| ==> sep !in parts[i]
    ensures Split(Join(parts, sep), sep) == parts
  {
    if |parts| > 1 {
      var s := Join(parts, sep);
      assert sep !in parts[0];
      assert s == parts[0] + [sep] + Join(parts[1..], sep);
      assert s[|parts[0]|] == sep;
      assert s[..|parts[0]|] == parts[0];
      assert IndexOf(s, sep) == |parts[0]|;
      assert s[|parts[0]| + 1..] == Join(parts[1..], sep);
      SplitJoin(parts[1..], sep);
    }
  }

  datatype ClassTerm = ClassTerm(term: string, classCode: string)

  /** The slug's two underscore-free parts, when it has exactly one underscore. */
  function ParseClassTerm(slug: string): (r: Option<ClassTerm>)
    ensures r.Some? <==> Occurrences(slug, '_') == 1
    ensures r.Some? ==> '_' !in r.value.term && '_' !in r.value.classCode
    ensures r.Some? ==> slug == r.value.term + "_" + r.value.classCode
  {
    if Occurrences(slug, '_') != 1 then None
    else
      var i := IndexOf(slug, '_');
      assert slug == slug[..i] + "_" + slug[i + 1..];
      assert multiset(slug) == multiset(slug[..i]) + multiset{'_'} + multiset(slug[i + 1..]);
      Some(ClassTerm(slug[..i], slug[i + 1..]))
  }

  /** The parse is Python's check: split at every underscore and accept exactly two pieces. */
  lemma ParseClassTermIsSplit(slug: string)
    ensures var args := Split(slug, '_');
            ParseClassTerm(slug) == if |args| != 2 then None else Some(ClassTerm(args[0], args[1]))
  {
    var args := Split(slug, '_');
    if |args| == 2 {
      var r := ParseClassTerm(slug).value;
      assert Join(args, '_') == args[0] + "_" + args[1];
      SplitJoin([r.term, r.classCode], '_');
      assert Join([r.term, r.classCode], '_') == r.term + "_" + r.classCode;
    }
  }

  /** Every slug built as `{term}_{class}` from underscore-free parts parses back to those parts. */
  lemma ParseClassTermOfFormat(term: string, classCode: string)
    requires '_' !in term && '_' !in classCode
    ensures ParseClassTerm(term + "_" + classCode) == Some(ClassTerm(term, classCode))
  {
    assert Join([term, classCode], '_') == term + "_" + classCode;
    SplitJoin([term, classCode], '_');
  }
}
