/** Cutting a text at a separator and joining the parts again, as `split` and `join` do. */
module Segments {
  function Split<T(==)>(text: seq<T>, sep: T): (parts: seq<seq<T>>)
    ensures |parts| > 0
  {
    if text == [] then [[]]
    else
      var others := Split(text[1..], sep);
      if text[0] == sep then [[]] + others else [[text[0]] + others[0]] + others[1..]
  }

  function Join<T>(parts: seq<seq<T>>, sep: T): seq<T> {
    if parts == [] then [] else if |parts| == 1 then parts[0] else parts[0] + [sep] + Join(parts[1..], sep)
  }

  lemma {:induction false} JoinOfSplit<T>(text: seq<T>, sep: T)
    ensures Join(Split(text, sep), sep) == text
    ensures forall i :: 0 <= i < |Split(text, sep)| ==> sep !in Split(text, sep)[i]
  {
    if text != [] {
      JoinOfSplit(text[1..], sep);
      var others := Split(text[1..], sep);
      if text[0] == sep {
        assert Split(text, sep)[1..] == others;
        assert text == [sep] + text[1..];
      } else {
        assert Split(text, sep)[1..] == others[1..];
        assert text == [text[0]] + text[1..];
      }
    }
  }

  lemma {:induction false} SplitOfPart<T>(part: seq<T>, sep: T)
    requires sep !in part
    ensures Split(part, sep) == [part]
  {
    if part != [] {
      SplitOfPart(part[1..], sep);
      assert part == [part[0]] + part[1..];
    }
  }

  lemma {:induction false} SplitAtSep<T>(part: seq<T>, others: seq<T>, sep: T)
    requires sep !in part
    ensures Split(part + [sep] + others, sep) == [part] + Split(others, sep)
  {
    var text := part + [sep] + others;
    if part == [] {
      assert text[1..] == others;
    } else {
      SplitAtSep(part[1..], others, sep);
      assert text[1..] == part[1..] + [sep] + others;
      assert part == [part[0]] + part[1..];
    }
  }

  lemma {:induction false} SplitOfJoin<T>(parts: seq<seq<T>>, sep: T)
    requires |parts| > 0 && forall i :: 0 <= i < |parts| ==> sep !in parts[i]
    ensures Split(Join(parts, sep), sep) == parts
  {
    if |parts| == 1 {
      SplitOfPart(parts[0], sep);
    } else {
      SplitOfJoin(parts[1..], sep);
      SplitAtSep(parts[0], Join(parts[1..], sep), sep);
    }
  }
}
