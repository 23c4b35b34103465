/** Splitting and joining text at a separator character. */
module Strings {

  // str.split on one character.
  function Split(s: string, separator: char): (parts: seq<string>)
    ensures |parts| >= 1
  {
    if s == [] then [""]
    else
      var parts := Split(s[1..], separator);
      if s[0] == separator then [""] + parts else [[s[0]] + parts[0]] + parts[1..]
  }

  function Join(parts: seq<string>, separator: char): string
    requires |parts| >= 1
  {
    if |parts| == 1 then parts[0] else parts[0] + [separator] + Join(parts[1..], separator)
  }

  lemma {:induction false} SplitPlain(s: string, separator: char)
    requires separator !in s
    ensures Split(s, separator) == [s]
  {
    if s != [] {
      SplitPlain(s[1..], separator);
      assert [s[0]] + s[1..] == s;
    }
  }

  lemma {:induction false} SplitOnce(head: string, separator: char, tail: string)
    requires separator !in head
    ensures Split(head + [separator] + tail, separator) == [head] + Split(tail, separator)
  {
    var s := head + [separator] + tail;
    if head == [] {
      assert s == [separator] + tail;
    } else {
      SplitOnce(head[1..], separator, tail);
      assert s[1..] == head[1..] + [separator] + tail;
      assert [head[0]] + head[1..] == head;
    }
  }

  lemma {:induction false} JoinInvertsSplit(s: string, separator: char)
    ensures Join(Split(s, separator), separator) == s
  {
    if s != [] {
      JoinInvertsSplit(s[1..], separator);
      var parts := Split(s[1..], separator);
      if s[0] == separator {
        assert Split(s, separator)[1..] == parts;
      } else {
        assert Split(s, separator)[1..] == parts[1..];
      }
    }
  }

  lemma {:induction false} SplitInvertsJoin(parts: seq<string>, separator: char)
    requires |parts| >= 1 && forall i :: 0 <= i < |parts| ==> separator !in parts[i]
    ensures Split(Join(parts, separator), separator) == parts
  {
    if |parts| == 1 {
      SplitPlain(parts[0], separator);
    } else {
      SplitOnce(parts[0], separator, Join(parts[1..], separator));
      SplitInvertsJoin(parts[1..], separator);
    }
  }

  // str.split with a limit of one: the text before and after the first separator.
  function Cut(s: string, separator: char): (string, string) {
    var parts := Split(s, separator);
    (parts[0], if |parts| == 1 then "" else Join(parts[1..], separator))
  }

  lemma CutOnce(head: string, separator: char, tail: string)
    requires separator !in head
    ensures Cut(head + [separator] + tail, separator) == (head, tail)
  {
    var s := head + [separator] + tail;
    SplitOnce(head, separator, tail);
    JoinInvertsSplit(tail, separator);
    assert Split(s, separator)[1..] == Split(tail, separator);
  }
}
