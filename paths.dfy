/**
 * The string handling _resolve_path relies on: Python's `path.strip("/")`
 * and `path.split("/")`, over strings as sequences of characters.
 */
module Paths {

  const SEP: char := '/'

  /** `s` with every leading separator removed. */
  function TrimStart(s: string): (r: string)
    ensures |r| <= |s| && r == s[|s| - |r|..]
    ensures forall i :: 0 <= i < |s| - |r| ==> s[i] == SEP
    ensures r == [] || r[0] != SEP
    decreases |s|
  {
    if s != [] && s[0] == SEP then TrimStart(s[1..]) else s
  }

  /** `s` with every trailing separator removed. */
  function TrimEnd(s: string): (r: string)
    ensures |r| <= |s| && r == s[..|r|]
    ensures forall i :: |r| <= i < |s| ==> s[i] == SEP
    ensures r == [] || r[|r| - 1] != SEP
    decreases |s|
  {
    if s != [] && s[|s| - 1] == SEP then TrimEnd(s[..|s| - 1]) else s
  }

  /** Python's `s.strip("/")`. */
  function Strip(s: string): (r: string)
    ensures r == [] || (r[0] != SEP && r[|r| - 1] != SEP)
  {
    TrimEnd(TrimStart(s))
  }

  /** Python's `s.split("/")`: the pieces between separators, at least one. */
  function Split(s: string): (r: seq<string>)
    ensures |r| >= 1
    ensures forall i :: 0 <= i < |r| ==> SEP !in r[i]
    decreases |s|
  {
    if s == [] then [""]
    else
      var rest := Split(s[1..]);
      if s[0] == SEP then [""] + rest else [[s[0]] + rest[0]] + rest[1..]
  }

  /** Python's `"/".join(parts)`. */
  function Join(parts: seq<string>): string
    requires |parts| >= 1
    decreases |parts|
  {
    if |parts| == 1 then parts[0] else parts[0] + [SEP] + Join(parts[1..])
  }

  /** Splitting loses nothing: joining the pieces gives the string back. */
  lemma {:induction false} JoinSplit(s: string)
    ensures Join(Split(s)) == s
    decreases |s|
  {
    if s != [] {
      JoinSplit(s[1..]);
      var rest := Split(s[1..]);
      if s[0] != SEP {
        var r := Split(s);
        assert r[0] == [s[0]] + rest[0] && r[1..] == rest[1..];
        if |rest| > 1 {
          assert Join(rest) == rest[0] + [SEP] + Join(rest[1..]);
          assert Join(r) == r[0] + [SEP] + Join(r[1..]);
        }
      }
    }
  }

  /** Joining pieces that hold no separator and splitting again gives the pieces back. */
  lemma {:induction false} SplitJoin(parts: seq<string>)
    requires |parts| >= 1
    requires forall i :: 0 <= i < |parts| ==> SEP !in parts[i]
    ensures Split(Join(parts)) == parts
    decreases |parts|, |parts[0]|
  {
    var p0 := parts[0];
    if |parts| == 1 {
      NoSeparatorSplit(p0);
    } else if p0 == [] {
      var tail := parts[1..];
      SplitJoin(tail);
      assert Join(parts) == [SEP] + Join(tail);
      SplitSep(Join(tail));
      ConsTail(parts);
    } else {
      var parts' := [p0[1..]] + parts[1..];
      assert p0[0] in p0 && SEP !in p0[1..];
      assert parts'[0] == p0[1..] && parts'[1..] == parts[1..];
      SplitJoin(parts');
      JoinFirst(parts, parts');
      SplitChar(p0[0], Join(parts'));
      assert [p0[0]] + p0[1..] == p0;
      ConsTail(parts);
    }
  }

  /** Splitting after a leading separator starts with an empty piece. */
  lemma SplitSep(s: string)
    ensures Split([SEP] + s) == [""] + Split(s)
  {
    assert ([SEP] + s)[1..] == s;
  }

  /** Splitting after a leading non-separator adds it to the first piece. */
  lemma SplitChar(c: char, s: string)
    requires c != SEP
    ensures Split([c] + s) == [[c] + Split(s)[0]] + Split(s)[1..]
  {
    assert ([c] + s)[1..] == s;
  }

  /** Moving the first character of the first piece out of the join. */
  lemma JoinFirst(parts: seq<string>, parts': seq<string>)
    requires |parts| >= 2 && parts[0] != []
    requires parts' == [parts[0][1..]] + parts[1..]
    ensures Join(parts) == [parts[0][0]] + Join(parts')
  {
    assert parts'[1..] == parts[1..];
    assert parts[0] == [parts[0][0]] + parts[0][1..];
  }

  /** A non-empty sequence is its head followed by its tail. */
  lemma ConsTail<T>(s: seq<T>)
    requires |s| >= 1
    ensures [s[0]] + s[1..] == s
  {
  }

  /** A name without separators splits into itself alone. */
  lemma {:induction false} NoSeparatorSplit(s: string)
    requires SEP !in s
    ensures Split(s) == [s]
    decreases |s|
  {
    if s != [] {
      assert s[0] in s && SEP !in s[1..];
      NoSeparatorSplit(s[1..]);
      assert [s[0]] + s[1..] == s;
    }
  }

  /** A name without separators is left alone by strip. */
  lemma NoSeparatorStrip(s: string)
    requires SEP !in s
    ensures Strip(s) == s
  {
    assert TrimStart(s) == s;
    assert TrimEnd(s) == s;
  }
}
