/**
 * The deadline rewrite that the update request applies before parsing the
 * date: `deadline.split('/').reverse().join('-')`, with JavaScript's
 * `String.prototype.split` (always at least one part, empty parts kept),
 * `Array.prototype.reverse` and `Array.prototype.join` (`[].join` is "").
 */
module Deadline {

  /** `s.split(sep)`: the maximal runs between separators, in order. */
  function Split(s: string, sep: char): (parts: seq<string>)
    ensures |parts| >= 1
    ensures forall p :: p in parts ==> sep !in p
    ensures Join(parts, sep) == s
    decreases |s|
  {
    if s == [] then [[]]
    else
      var rest := Split(s[1..], sep);
      assert s == [s[0]] + s[1..];
      if s[0] == sep then [[]] + rest
      else
        assert rest == [rest[0]] + rest[1..];
        JoinPrepend(s[0], rest, sep);
        [[s[0]] + rest[0]] + rest[1..]
  }

  /** The summed length of the parts. */
  function TotalLength(parts: seq<string>): nat
  {
    if parts == [] then 0 else |parts[0]| + TotalLength(parts[1..])
  }

  /** `parts.join(sep)`: the parts in order with one separator between
      neighbours; `[].join(sep)` is the empty string. */
  function Join(parts: seq<string>, sep: char): (s: string)
    ensures parts == [] ==> s == []
    ensures parts != [] ==> |s| == TotalLength(parts) + |parts| - 1
    ensures parts != [] ==> parts[0] <= s
    decreases |parts|
  {
    if |parts| == 0 then []
    else if |parts| == 1 then parts[0]
    else parts[0] + [sep] + Join(parts[1..], sep)
  }

  /** Prepending a character to the first part prepends it to the joined string. */
  lemma JoinPrepend(c: char, parts: seq<string>, sep: char)
    requires |parts| >= 1
    ensures Join([[c] + parts[0]] + parts[1..], sep) == [c] + Join(parts, sep)
  {
  }

  /** `xs.reverse()`. */
  function Reverse<T>(xs: seq<T>): (r: seq<T>)
    ensures |r| == |xs|
    ensures forall i :: 0 <= i < |xs| ==> r[i] == xs[|xs| - 1 - i]
  {
    if xs == [] then [] else Reverse(xs[1..]) + [xs[0]]
  }

  /** Joining parts that avoid a character with a different separator avoids it too. */
  lemma {:induction false} JoinAvoids(parts: seq<string>, sep: char, c: char)
    requires c != sep
    requires forall p :: p in parts ==> c !in p
    ensures c !in Join(parts, sep)
    decreases |parts|
  {
    if |parts| > 1 {
      assert parts[0] in parts;
      forall p | p in parts[1..] ensures c !in p {
        assert p in parts;
      }
      JoinAvoids(parts[1..], sep, c);
    } else if |parts| == 1 {
      assert parts[0] in parts;
    }
  }

  /** The rewrite `d.split('/').reverse().join('-')`: it never leaves a slash. */
  function Rewrite(d: string): (r: string)
    ensures '/' !in r
  {
    var parts := Reverse(Split(d, '/'));
    forall p | p in parts ensures '/' !in p {
      var i :| 0 <= i < |parts| && parts[i] == p;
      assert Split(d, '/')[|parts| - 1 - i] in Split(d, '/');
    }
    JoinAvoids(parts, '-', '/');
    Join(parts, '-')
  }

  /** A string without the separator splits into itself alone. */
  lemma SplitWithoutSep(p: string, sep: char)
    requires sep !in p
    ensures Split(p, sep) == [p]
  {
  }

  /** Splitting at the first separator yields the part before it, then the rest split. */
  lemma {:induction false} SplitAtFirst(p: string, sep: char, q: string)
    requires sep !in p
    ensures Split(p + [sep] + q, sep) == [p] + Split(q, sep)
    decreases |p|
  {
    var s := p + [sep] + q;
    if p == [] {
      assert s[1..] == q;
    } else {
      assert s[1..] == p[1..] + [sep] + q;
      assert p == [p[0]] + p[1..];
      SplitAtFirst(p[1..], sep, q);
    }
  }

  /** Split undoes Join when no part holds the separator. */
  lemma {:induction false} SplitJoin(parts: seq<string>, sep: char)
    requires |parts| >= 1
    requires forall p :: p in parts ==> sep !in p
    ensures Split(Join(parts, sep), sep) == parts
    decreases |parts|
  {
    assert parts[0] in parts;
    if |parts| == 1 {
      SplitWithoutSep(parts[0], sep);
    } else {
      forall p | p in parts[1..] ensures sep !in p {
        assert p in parts;
      }
      SplitJoin(parts[1..], sep);
      SplitAtFirst(parts[0], sep, Join(parts[1..], sep));
      assert parts == [parts[0]] + parts[1..];
    }
  }

  /** A date without slashes, such as the `yyyy-mm-dd` value of a date input,
      passes through unchanged. */
  lemma RewriteWithoutSlash(d: string)
    requires '/' !in d
    ensures Rewrite(d) == d
  {
  }

  /** Joining three parts puts the separator between each neighbouring pair. */
  lemma JoinThree(a: string, b: string, c: string, sep: char)
    ensures Join([a, b, c], sep) == a + [sep] + b + [sep] + c
  {
    var parts := [a, b, c];
    assert parts[1..] == [b, c] && parts[1..][1..] == [c];
    assert Join(parts[1..], sep) == b + [sep] + c;
    assert Join(parts, sep) == a + [sep] + (b + [sep] + c);
  }

  /** `"dd/mm/yyyy"` becomes `"yyyy-mm-dd"`. */
  lemma RewriteDayMonthYear(day: string, month: string, year: string)
    requires '/' !in day && '/' !in month && '/' !in year
    ensures Rewrite(day + "/" + month + "/" + year) == year + "-" + month + "-" + day
  {
    var parts := [day, month, year];
    JoinThree(day, month, year, '/');
    assert day + "/" + month + "/" + year == Join(parts, '/');
    SplitJoin(parts, '/');
    assert Split(day + "/" + month + "/" + year, '/') == parts;
    assert Reverse(parts) == [year, month, day];
    JoinThree(year, month, day, '-');
    assert year + "-" + month + "-" + day == Join([year, month, day], '-');
  }

  /** Rewriting twice is rewriting once. */
  lemma RewriteIdempotent(d: string)
    ensures Rewrite(Rewrite(d)) == Rewrite(d)
  {
  }
}
