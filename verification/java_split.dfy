/**
 * Java's String.split(",") with limit 0: the line is cut at every comma (no quoting),
 * trailing empty pieces are removed, and a line without any comma comes back whole.
 */
module JavaSplit {

  const SEP: char := ','

  /** Every piece between commas, in order, empty pieces included. */
  function SplitAll(s: string): (parts: seq<string>)
    ensures |parts| >= 1
  {
    if s == [] then [""]
    else
      var rest := SplitAll(s[1..]);
      if s[0] == SEP then [""] + rest
      else [[s[0]] + rest[0]] + rest[1..]
  }

  /** The inverse of SplitAll: the pieces glued back with commas. */
  function Join(parts: seq<string>): string
    requires |parts| >= 1
  {
    if |parts| == 1 then parts[0] else parts[0] + [SEP] + Join(parts[1..])
  }

  /**
   * Drops the empty pieces at the end, as split(regex, 0) does: what is kept is a prefix
   * that is empty or ends in a non-empty piece, and every piece dropped is empty.
   */
  function StripTrailingEmpty(parts: seq<string>): (r: seq<string>)
    ensures r <= parts
    ensures r == [] || r[|r| - 1] != ""
    ensures forall k :: |r| <= k < |parts| ==> parts[k] == ""
  {
    if parts == [] then []
    else if parts[|parts| - 1] == "" then StripTrailingEmpty(parts[..|parts| - 1])
    else parts
  }

  /** No piece of a split holds a comma: a comma inside a field cannot be expressed. */
  lemma {:induction false} SplitAllPiecesHaveNoSep(s: string)
    ensures forall k :: 0 <= k < |SplitAll(s)| ==> SEP !in SplitAll(s)[k]
  {
    if s != [] {
      SplitAllPiecesHaveNoSep(s[1..]);
    }
  }

  /**
   * String.split(",") as Java computes it: a line without a comma is its only field;
   * otherwise the fields are the comma-separated pieces up to the last non-empty one
   * (see StripTrailingEmpty).
   */
  function Split(s: string): (fields: seq<string>)
    ensures SEP !in s ==> fields == [s]
    ensures SEP in s ==> fields == [] || fields[|fields| - 1] != ""
  {
    if SEP !in s then [s] else StripTrailingEmpty(SplitAll(s))
  }

  /** No field of a split holds a comma. */
  lemma SplitFieldsHaveNoSep(s: string)
    ensures forall k :: 0 <= k < |Split(s)| ==> SEP !in Split(s)[k]
  {
    SplitAllPiecesHaveNoSep(s);
  }

  /** A piece without commas comes back as the only piece. */
  lemma {:induction false} SplitAllNoSep(p: string)
    requires SEP !in p
    ensures SplitAll(p) == [p]
  {
    if p != [] {
      SplitAllNoSep(p[1..]);
      assert [p[0]] + p[1..] == p;
    }
  }

  /** Splitting "p,rest" yields p followed by the pieces of rest. */
  lemma {:induction false} SplitAllCons(p: string, rest: string)
    requires SEP !in p
    ensures SplitAll(p + [SEP] + rest) == [p] + SplitAll(rest)
  {
    if p == [] {
      assert p + [SEP] + rest == [SEP] + rest;
      assert ([SEP] + rest)[1..] == rest;
    } else {
      var s := p + [SEP] + rest;
      assert s[1..] == p[1..] + [SEP] + rest;
      SplitAllCons(p[1..], rest);
      assert [p[0]] + p[1..] == p;
    }
  }

  /** Joining the pieces of s gives back s. */
  lemma {:induction false} JoinSplitAll(s: string)
    ensures Join(SplitAll(s)) == s
  {
    if s != [] {
      JoinSplitAll(s[1..]);
      var rest := SplitAll(s[1..]);
      if s[0] == SEP {
        assert SplitAll(s)[1..] == rest;
        assert [s[0]] + s[1..] == s;
      } else {
        var parts := SplitAll(s);
        if |rest| == 1 {
          assert Join(parts) == [s[0]] + rest[0];
        } else {
          assert parts[1..] == rest[1..];
          assert Join(rest) == rest[0] + [SEP] + Join(rest[1..]);
        }
        assert [s[0]] + s[1..] == s;
      }
    }
  }

  /** Splitting pieces glued with commas gives the pieces back, when none holds a comma. */
  lemma {:induction false} SplitAllJoin(parts: seq<string>)
    requires |parts| >= 1
    requires forall k :: 0 <= k < |parts| ==> SEP !in parts[k]
    ensures SplitAll(Join(parts)) == parts
  {
    if |parts| == 1 {
      SplitAllNoSep(parts[0]);
    } else {
      SplitAllJoin(parts[1..]);
      SplitAllCons(parts[0], Join(parts[1..]));
      assert [parts[0]] + parts[1..] == parts;
    }
  }

  /**
   * Split keeps every piece up to the last non-empty one: if piece k of the full
   * split is non-empty, Split returns at least k + 1 fields and they agree with it.
   */
  lemma SplitKeepsPrefix(s: string, k: nat)
    requires SEP in s
    requires k < |SplitAll(s)| && SplitAll(s)[k] != ""
    ensures |Split(s)| > k
    ensures forall j :: 0 <= j <= k ==> Split(s)[j] == SplitAll(s)[j]
  {
  }

  /** A line ending in a comma loses its last (empty) field. */
  lemma SplitDropsTrailingEmpty(s: string)
    requires SEP in s
    ensures Split(s + [SEP]) == Split(s)
  {
    var t := s + [SEP];
    assert SEP in t;
    SplitAllAppendSep(s);
  }

  /** Appending a comma adds one empty piece at the end of the full split. */
  lemma {:induction false} SplitAllAppendSep(s: string)
    ensures SplitAll(s + [SEP]) == SplitAll(s) + [""]
  {
    if s == [] {
      assert SplitAll([SEP]) == [""] + SplitAll([]);
    } else {
      assert (s + [SEP])[1..] == s[1..] + [SEP];
      SplitAllAppendSep(s[1..]);
    }
  }

  /** Splitting "a,b,...,rest" gives the joined pieces followed by the pieces of rest. */
  lemma {:induction false} SplitAllJoinThen(parts: seq<string>, rest: string)
    requires |parts| >= 1
    requires forall k :: 0 <= k < |parts| ==> SEP !in parts[k]
    ensures SplitAll(Join(parts) + [SEP] + rest) == parts + SplitAll(rest)
  {
    if |parts| == 1 {
      SplitAllCons(parts[0], rest);
    } else {
      var tail := Join(parts[1..]) + [SEP] + rest;
      calc {
        Join(parts) + [SEP] + rest;
        (parts[0] + [SEP] + Join(parts[1..])) + [SEP] + rest;
        parts[0] + [SEP] + tail;
      }
      SplitAllCons(parts[0], tail);
      SplitAllJoinThen(parts[1..], rest);
      assert [parts[0]] + parts[1..] == parts;
    }
  }

  /** Splitting "a,b" gives the pieces of a followed by the pieces of b. */
  lemma SplitAllAppend(a: string, b: string)
    ensures SplitAll(a + [SEP] + b) == SplitAll(a) + SplitAll(b)
  {
    JoinSplitAll(a);
    SplitAllPiecesHaveNoSep(a);
    SplitAllJoinThen(SplitAll(a), b);
  }

  /**
   * Appending a comma and more text to a line that has at least two fields keeps its
   * fields as a prefix of the new ones.
   */
  lemma SplitExtends(line: string, rest: string)
    requires |Split(line)| >= 2
    ensures var longer := Split(line + [SEP] + rest);
      |longer| >= |Split(line)| && longer[..|Split(line)|] == Split(line)
  {
    var f := Split(line);
    var n := |f|;
    assert SEP in line;
    var longer := line + [SEP] + rest;
    assert longer[|line|] == SEP;
    SplitAllAppend(line, rest);
    assert SplitAll(longer)[..|SplitAll(line)|] == SplitAll(line);
    assert f[n - 1] == SplitAll(longer)[n - 1];
    SplitKeepsPrefix(longer, n - 1);
  }
}
