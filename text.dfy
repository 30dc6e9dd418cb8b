/**
 * Joining strings with a one-character separator, and its inverse,
 * splitting at every occurrence of a separator. Both are defined from
 * the right, the order in which the rendering loops append.
 */
module Text {

  /** `parts` separated by single `sep` characters, none before or after. */
  function Join(parts: seq<string>, sep: char): string
  {
    if |parts| == 0 then ""
    else if |parts| == 1 then parts[0]
    else Join(parts[..|parts| - 1], sep) + [sep] + parts[|parts| - 1]
  }

  /** Each of `parts` preceded by one `sep`, all concatenated. */
  function Prefixed(parts: seq<string>, sep: char): string
  {
    if |parts| == 0 then ""
    else Prefixed(parts[..|parts| - 1], sep) + [sep] + parts[|parts| - 1]
  }

  /** The fields of `s` between occurrences of `sep` (one more than there are separators). */
  function SplitOn(s: string, sep: char): (r: seq<string>)
    ensures |r| >= 1
  {
    if |s| == 0 then [""]
    else if s[|s| - 1] == sep then SplitOn(s[..|s| - 1], sep) + [""]
    else ExtendLast(SplitOn(s[..|s| - 1], sep), [s[|s| - 1]])
  }

  /** `fields` with `w` appended to its last field. */
  function ExtendLast(fields: seq<string>, w: string): (r: seq<string>)
    requires |fields| >= 1
    ensures |r| == |fields|
  {
    fields[..|fields| - 1] + [fields[|fields| - 1] + w]
  }

  predicate Avoids(parts: seq<string>, c: char) {
    forall i :: 0 <= i < |parts| ==> c !in parts[i]
  }

  /** One more character either starts a new field or extends the last. */
  lemma SplitOnSnoc(x: string, c: char, sep: char)
    ensures SplitOn(x + [c], sep)
         == if c == sep then SplitOn(x, sep) + [""] else ExtendLast(SplitOn(x, sep), [c])
  {
    assert (x + [c])[..|x|] == x;
  }

  /** Appending a word free of `sep` extends the last field only. */
  lemma {:induction false} SplitOnAppend(x: string, y: string, sep: char)
    requires sep !in y
    ensures SplitOn(x + y, sep) == ExtendLast(SplitOn(x, sep), y)
    decreases |y|
  {
    var sx := SplitOn(x, sep);
    if |y| == 0 {
      assert x + y == x;
      assert sx[|sx| - 1] + y == sx[|sx| - 1];
      assert sx[..|sx| - 1] + [sx[|sx| - 1]] == sx;
    } else {
      var y' := y[..|y| - 1];
      var c := y[|y| - 1];
      assert x + y == (x + y') + [c];
      SplitOnAppend(x, y', sep);
      SplitOnSnoc(x + y', c, sep);
      var init := ExtendLast(sx, y');
      assert init[..|init| - 1] == sx[..|sx| - 1];
      assert sx[|sx| - 1] + y' + [c] == sx[|sx| - 1] + y;
    }
  }

  /** Splitting undoes joining, when no part contains the separator. */
  lemma {:induction false} SplitJoin(parts: seq<string>, sep: char)
    requires |parts| >= 1
    requires Avoids(parts, sep)
    ensures SplitOn(Join(parts, sep), sep) == parts
    decreases |parts|
  {
    if |parts| == 1 {
      SplitOnWord(parts[0], sep);
      assert Join(parts, sep) == parts[0];
      assert [parts[0]] == parts;
    } else {
      var init := parts[..|parts| - 1];
      assert Avoids(init, sep) by {
        forall i | 0 <= i < |init| ensures sep !in init[i] {
          assert init[i] == parts[i];
        }
      }
      SplitJoin(init, sep);
      SplitJoinSnoc(init, parts[|parts| - 1], sep);
      assert init + [parts[|parts| - 1]] == parts;
    }
  }

  /** A single separator-free word splits into itself. */
  lemma SplitOnWord(w: string, sep: char)
    requires sep !in w
    ensures SplitOn(w, sep) == [w]
  {
    SplitOnAppend("", w, sep);
    assert "" + w == w;
  }

  /** The step of SplitJoin: one more separator-free part splits off as a field of its own. */
  lemma SplitJoinSnoc(init: seq<string>, last: string, sep: char)
    requires |init| >= 1 && sep !in last
    requires SplitOn(Join(init, sep), sep) == init
    ensures SplitOn(Join(init + [last], sep), sep) == init + [last]
  {
    var x := Join(init, sep);
    var parts := init + [last];
    assert parts[..|parts| - 1] == init;
    assert Join(parts, sep) == x + [sep] + last;
    SplitOnSnoc(x, sep, sep);
    SplitOnAppend(x + [sep], last, sep);
    assert (init + [""])[..|init|] == init;
    assert "" + last == last;
  }

  /** Joining undoes splitting, for every string. */
  lemma {:induction false} JoinSplit(s: string, sep: char)
    ensures Join(SplitOn(s, sep), sep) == s
    decreases |s|
  {
    if |s| > 0 {
      var s' := s[..|s| - 1];
      var c := s[|s| - 1];
      var init := SplitOn(s', sep);
      JoinSplit(s', sep);
      assert s == s' + [c];
      SplitOnSnoc(s', c, sep);
      if c == sep {
        JoinAppendEmpty(init, sep);
      } else {
        JoinExtendLast(init, [c], sep);
      }
    }
  }

  lemma JoinAppendEmpty(parts: seq<string>, sep: char)
    requires |parts| >= 1
    ensures Join(parts + [""], sep) == Join(parts, sep) + [sep]
  {
    var all := parts + [""];
    assert all[..|all| - 1] == parts;
  }

  lemma JoinExtendLast(parts: seq<string>, w: string, sep: char)
    requires |parts| >= 1
    ensures Join(ExtendLast(parts, w), sep) == Join(parts, sep) + w
  {
    var n := |parts|;
    var r := parts[..n - 1] + [parts[n - 1] + w];
    if n == 1 {
      assert r == [parts[0] + w];
    } else {
      assert r[..n - 1] == parts[..n - 1];
    }
  }

  /** A character that is neither the separator nor in any part is not in the join. */
  lemma {:induction false} JoinAvoids(parts: seq<string>, sep: char, c: char)
    requires c != sep && Avoids(parts, c)
    ensures c !in Join(parts, sep)
    decreases |parts|
  {
    if |parts| >= 2 {
      JoinAvoids(parts[..|parts| - 1], sep, c);
    }
  }

  /** A joined list begins with its first part. */
  lemma {:induction false} JoinStartsWithFirst(parts: seq<string>, sep: char)
    requires |parts| >= 1
    ensures |parts[0]| <= |Join(parts, sep)|
    ensures Join(parts, sep)[..|parts[0]|] == parts[0]
    decreases |parts|
  {
    if |parts| >= 2 {
      var init := parts[..|parts| - 1];
      JoinStartsWithFirst(init, sep);
      assert init[0] == parts[0];
    }
  }

  /** A join of non-empty parts that avoid the separator neither starts nor ends with it. */
  lemma JoinEdges(parts: seq<string>, sep: char)
    requires |parts| >= 1 && Avoids(parts, sep)
    requires forall i :: 0 <= i < |parts| ==> |parts[i]| > 0
    ensures |Join(parts, sep)| > 0
    ensures Join(parts, sep)[0] != sep
    ensures Join(parts, sep)[|Join(parts, sep)| - 1] != sep
  {
    var s := Join(parts, sep);
    JoinStartsWithFirst(parts, sep);
    assert s[0] == parts[0][0];
    var final := parts[|parts| - 1];
    if |parts| >= 2 {
      assert s == Join(parts[..|parts| - 1], sep) + [sep] + final;
    }
    assert s[|s| - 1] == final[|final| - 1];
  }

  /** `head` followed by `sep`-prefixed parts is the join of `head` and the parts. */
  lemma {:induction false} PrefixedIsJoin(head: string, parts: seq<string>, sep: char)
    ensures head + Prefixed(parts, sep) == Join([head] + parts, sep)
    decreases |parts|
  {
    if |parts| > 0 {
      var init := parts[..|parts| - 1];
      PrefixedIsJoin(head, init, sep);
      var all := [head] + parts;
      assert all[..|all| - 1] == [head] + init;
    } else {
      assert [head] + parts == [head];
    }
  }

  /** Joining one more part adds a separator and that part (nothing before the first). */
  lemma JoinSnoc(parts: seq<string>, k: nat, sep: char)
    requires k < |parts|
    ensures Join(parts[..k + 1], sep) == if k == 0 then parts[0] else Join(parts[..k], sep) + [sep] + parts[k]
  {
    assert parts[..k + 1][..k] == parts[..k];
  }

  /** Prefixing one more part, after a head, adds a separator and that part. */
  lemma PrefixedSnoc(head: string, parts: seq<string>, k: nat, sep: char)
    requires k < |parts|
    ensures head + Prefixed(parts[..k + 1], sep) == head + Prefixed(parts[..k], sep) + [sep] + parts[k]
  {
    assert parts[..k + 1][..k] == parts[..k];
    var p := Prefixed(parts[..k], sep);
    assert Prefixed(parts[..k + 1], sep) == p + [sep] + parts[k];
    assert head + (p + [sep] + parts[k]) == head + p + [sep] + parts[k];
  }

  /** A list of four parts, joined. */
  lemma JoinFour(a: string, b: string, c: string, d: string, sep: char)
    ensures Join([a, b, c, d], sep) == a + [sep] + b + [sep] + c + [sep] + d
  {
    var p := [a, b, c, d];
    assert p[..3] == [a, b, c];
    assert [a, b, c][..2] == [a, b];
    assert [a, b][..1] == [a];
    assert Join([a, b], sep) == a + [sep] + b;
    assert Join([a, b, c], sep) == a + [sep] + b + [sep] + c;
  }
}
