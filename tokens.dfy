/**
 * The Authorization header and the bearer token carried in it.
 * `Split` is JavaScript's `String.prototype.split` with a one-character
 * separator; the route takes the token as field 1 of the header split on " ".
 */
module Tokens {
  import opened Wrappers

  const BearerPrefix: string := "Bearer "

  /** The header is present and starts with "Bearer " (an empty header is falsy and fails too). */
  predicate HasBearerPrefix(header: Option<string>)
    ensures HasBearerPrefix(header) <==>
      header.Some? && |header.value| >= |BearerPrefix| &&
      forall k :: 0 <= k < |BearerPrefix| ==> header.value[k] == BearerPrefix[k]
  {
    header.Some? && BearerPrefix <= header.value
  }

  /** The fields of `s` between occurrences of `sep`, as `s.split(sep)` returns them. */
  function Split(s: string, sep: char): (fields: seq<string>)
    ensures |fields| == 1 + multiset(s)[sep]
    ensures forall k :: 0 <= k < |fields| ==> sep !in fields[k]
    decreases |s|
  {
    if s == [] then [[]]
    else
      var rest := Split(s[1..], sep);
      assert s == [s[0]] + s[1..];
      if s[0] == sep then [[]] + rest
      else [[s[0]] + rest[0]] + rest[1..]
  }

  /** The fields put back together with `sep` between them, as `fields.join(sep)` does. */
  function Join(fields: seq<string>, sep: char): (s: string)
    requires |fields| >= 1
  {
    if |fields| == 1 then fields[0] else fields[0] + [sep] + Join(fields[1..], sep)
  }

  /** Prepending a character to the first field prepends it to the join. */
  lemma JoinConsFirst(c: char, fields: seq<string>, sep: char)
    requires |fields| >= 1
    ensures Join([[c] + fields[0]] + fields[1..], sep) == [c] + Join(fields, sep)
  {
  }

  /** Joining the fields of a split gives back the original string. */
  lemma {:induction false} JoinSplit(s: string, sep: char)
    ensures Join(Split(s, sep), sep) == s
    decreases |s|
  {
    if s != [] {
      JoinSplit(s[1..], sep);
      var rest := Split(s[1..], sep);
      assert s == [s[0]] + s[1..];
      if s[0] == sep {
        assert ([[]] + rest)[1..] == rest;
      } else {
        JoinConsFirst(s[0], rest, sep);
      }
    }
  }

  /** A string without the separator is a single field. */
  lemma {:induction false} SplitWithoutSep(a: string, sep: char)
    requires sep !in a
    ensures Split(a, sep) == [a]
    decreases |a|
  {
    if a != [] {
      SplitWithoutSep(a[1..], sep);
      assert [a[0]] + a[1..] == a;
    }
  }

  /** A separator-free field followed by the separator splits off as the first field. */
  lemma {:induction false} SplitCons(a: string, sep: char, b: string)
    requires sep !in a
    ensures Split(a + [sep] + b, sep) == [a] + Split(b, sep)
    decreases |a|
  {
    var s := a + [sep] + b;
    if a == [] {
      assert s[1..] == b;
    } else {
      assert s[1..] == a[1..] + [sep] + b;
      SplitCons(a[1..], sep, b);
      assert [a[0]] + a[1..] == a;
    }
  }

  /** Splitting a join of separator-free fields gives back the fields. */
  lemma {:induction false} SplitJoin(fields: seq<string>, sep: char)
    requires |fields| >= 1
    requires forall k :: 0 <= k < |fields| ==> sep !in fields[k]
    ensures Split(Join(fields, sep), sep) == fields
    decreases |fields|
  {
    if |fields| == 1 {
      SplitWithoutSep(fields[0], sep);
    } else {
      SplitJoin(fields[1..], sep);
      SplitCons(fields[0], sep, Join(fields[1..], sep));
      assert [fields[0]] + fields[1..] == fields;
    }
  }

  /** The first field is the longest separator-free prefix of the string. */
  lemma {:induction false} FirstField(s: string, sep: char)
    ensures Split(s, sep)[0] <= s
    ensures |Split(s, sep)[0]| == |s| || s[|Split(s, sep)[0]|] == sep
    decreases |s|
  {
    if s != [] && s[0] != sep {
      FirstField(s[1..], sep);
      assert s == [s[0]] + s[1..];
    }
  }

  /**
   * The token of `rawAuthHeader.split(" ")[1]`: the text after "Bearer " up to
   * the next space or the end of the header.
   */
  function BearerToken(header: Option<string>): (token: string)
    requires HasBearerPrefix(header)
    ensures ' ' !in token
    ensures BearerPrefix + token <= header.value
    ensures |header.value| == |BearerPrefix| + |token| || header.value[|BearerPrefix| + |token|] == ' '
  {
    var h := header.value;
    var rest := h[|BearerPrefix|..];
    assert h == "Bearer" + [' '] + rest;
    SplitCons("Bearer", ' ', rest);
    FirstField(rest, ' ');
    Split(h, ' ')[1]
  }
}
