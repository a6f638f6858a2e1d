/** The two Python string operations the location rule relies on:
    `str.split(sep)` for a one-character separator (with `sep.join` as its
    inverse) and `str.endswith(suffix)`. */
module PyStr {

  /** Number of occurrences of `c` in `s`. */
  function Count(s: string, c: char): nat
  {
    if s == [] then 0 else (if s[0] == c then 1 else 0) + Count(s[1..], c)
  }

  lemma {:induction false} CountZero(s: string, c: char)
    ensures Count(s, c) == 0 <==> c !in s
  {
    if s != [] {
      CountZero(s[1..], c);
      assert s == [s[0]] + s[1..];
    }
  }

  /** `sep.join(parts)`. */
  function Join(parts: seq<string>, sep: char): string
  {
    if |parts| == 0 then []
    else if |parts| == 1 then parts[0]
    else parts[0] + [sep] + Join(parts[1..], sep)
  }

  /** `s.split(sep)`: the pieces of `s` between occurrences of `sep`, one more
      piece than there are separators, none containing the separator, and
      joining them back with `sep` gives `s`. */
  function Split(s: string, sep: char): (parts: seq<string>)
    ensures |parts| == Count(s, sep) + 1
    ensures forall i :: 0 <= i < |parts| ==> sep !in parts[i]
    ensures Join(parts, sep) == s
  {
    if s == [] then [[]]
    else
      var rest := Split(s[1..], sep);
      if s[0] == sep then
        assert s == [sep] + Join(rest, sep);
        [[]] + rest
      else
        var parts := [[s[0]] + rest[0]] + rest[1..];
        assert |rest| > 1 ==> Join(rest, sep) == rest[0] + [sep] + Join(rest[1..], sep);
        assert parts[1..] == rest[1..];
        parts
  }

  /** Splitting a separator-free head followed by a tail glues the head onto
      the tail's first piece. */
  lemma {:induction false} SplitFreeHead(head: string, tail: string, sep: char)
    requires sep !in head
    ensures Split(head + tail, sep) ==
            [head + Split(tail, sep)[0]] + Split(tail, sep)[1..]
  {
    if head != [] {
      SplitFreeHead(head[1..], tail, sep);
      var p := Split(tail, sep);
      var s := head + tail;
      assert s[0] == head[0] && s[0] != sep && s[1..] == head[1..] + tail;
      var rest := Split(s[1..], sep);
      assert rest == [head[1..] + p[0]] + p[1..];
      assert Split(s, sep) == [[head[0]] + rest[0]] + rest[1..];
      assert [head[0]] + (head[1..] + p[0]) == head + p[0];
    } else {
      var p := Split(tail, sep);
      assert head + tail == tail && head + p[0] == p[0];
      assert [p[0]] + p[1..] == p;
    }
  }

  /** Splitting at a separator that follows a separator-free head starts a
      new piece after `head`. */
  lemma {:induction false} SplitAtFirst(head: string, tail: string, sep: char)
    requires sep !in head
    ensures Split(head + [sep] + tail, sep) == [head] + Split(tail, sep)
  {
    var tl := [sep] + tail;
    assert head + [sep] + tail == head + tl;
    SplitFreeHead(head, tl, sep);
    assert tl[0] == sep && tl[1..] == tail;
    var p := Split(tl, sep);
    assert p == [[]] + Split(tail, sep);
    assert head + p[0] == head && p[1..] == Split(tail, sep);
  }

  /** `sep.join` undone by `split`: pieces free of the separator come back
      unchanged. */
  lemma {:induction false} SplitJoin(parts: seq<string>, sep: char)
    requires |parts| >= 1
    requires forall i :: 0 <= i < |parts| ==> sep !in parts[i]
    ensures Split(Join(parts, sep), sep) == parts
  {
    if |parts| == 1 {
      SplitFreeHead(parts[0], [], sep);
      assert parts[0] + [] == parts[0];
    } else {
      SplitJoin(parts[1..], sep);
      SplitAtFirst(parts[0], Join(parts[1..], sep), sep);
      assert [parts[0]] + parts[1..] == parts;
    }
  }

  /** `s.endswith(suffix)`: a plain character-sequence suffix test, with no
      notion of domain labels. */
  predicate EndsWith(s: string, suffix: string)
  {
    |suffix| <= |s| && s[|s| - |suffix|..] == suffix
  }

  /** `EndsWith` is exactly "some text followed by the suffix": a match leaves
      a front part before the suffix, and any front part followed by the
      suffix matches. */
  lemma EndsWithIsConcat(s: string, front: string, suffix: string)
    ensures EndsWith(s, suffix) ==> s == s[..|s| - |suffix|] + suffix
    ensures s == front + suffix ==> EndsWith(s, suffix)
  {
  }

  /** Suffix tests are transitive: whatever ends with `b` ends with every suffix of `b`. */
  lemma SuffixTransitive(s: string, b: string, a: string)
    requires EndsWith(s, b) && EndsWith(b, a)
    ensures EndsWith(s, a)
  {
  }
}
