/** Go's `strings.Split` for a one-character separator, with `strings.Join`
    as its inverse. */
module Strings {

  /** `strings.Split(s, string(sep))`: the pieces of `s` between occurrences
      of `sep`, in order, one more than there are separators. Splitting the
      empty string gives one empty piece. */
  function Split(s: string, sep: char): (parts: seq<string>)
    ensures |parts| == Occurrences(s, sep) + 1
    decreases |s|
  {
    if s == [] then [[]]
    else
      var rest := Split(s[1..], sep);
      if s[0] == sep then [[]] + rest
      else [[s[0]] + rest[0]] + rest[1..]
  }

  /** How many times `c` occurs in `s`. */
  function Occurrences(s: string, c: char): nat
  {
    if s == [] then 0 else (if s[0] == c then 1 else 0) + Occurrences(s[1..], c)
  }

  /** Occurrences add up over a concatenation. */
  lemma {:induction false} OccurrencesConcat(a: string, b: string, c: char)
    ensures Occurrences(a + b, c) == Occurrences(a, c) + Occurrences(b, c)
  {
    if a != [] {
      assert (a + b)[1..] == a[1..] + b;
      OccurrencesConcat(a[1..], b, c);
    } else {
      assert a + b == b;
    }
  }

  /** `c` occurs no time in `s` exactly when it is not in `s`. */
  lemma {:induction false} OccurrencesAbsent(s: string, c: char)
    ensures Occurrences(s, c) == 0 <==> c !in s
  {
    if s != [] {
      assert s == [s[0]] + s[1..];
      OccurrencesAbsent(s[1..], c);
    }
  }

  /** `strings.Join(parts, string(sep))`: one separator between each two
      pieces, so exactly `|parts| - 1` when no piece holds one. */
  function Join(parts: seq<string>, sep: char): (s: string)
    ensures parts != [] && (forall k :: 0 <= k < |parts| ==> sep !in parts[k]) ==>
              Occurrences(s, sep) == |parts| - 1
  {
    if parts == [] then []
    else if |parts| == 1 then
      OccurrencesAbsent(parts[0], sep);
      parts[0]
    else
      var tail := Join(parts[1..], sep);
      OccurrencesConcat(parts[0] + [sep], tail, sep);
      OccurrencesConcat(parts[0], [sep], sep);
      OccurrencesAbsent(parts[0], sep);
      parts[0] + [sep] + tail
  }

  /** No piece produced by `Split` contains the separator. */
  lemma {:induction false} SplitPiecesAvoidSeparator(s: string, sep: char)
    ensures forall k :: 0 <= k < |Split(s, sep)| ==> sep !in Split(s, sep)[k]
  {
    if s != [] {
      SplitPiecesAvoidSeparator(s[1..], sep);
    }
  }

  /** Joining the pieces with the separator gives back the original string. */
  lemma {:induction false} JoinSplit(s: string, sep: char)
    ensures Join(Split(s, sep), sep) == s
  {
    if s != [] {
      var rest := Split(s[1..], sep);
      JoinSplit(s[1..], sep);
      if s[0] == sep {
        assert Split(s, sep) == [[]] + rest;
      } else {
        var parts := Split(s, sep);
        assert parts == [[s[0]] + rest[0]] + rest[1..];
        if |rest| == 1 {
          assert Join(rest, sep) == rest[0];
        } else {
          assert parts[1..] == rest[1..];
          assert Join(rest, sep) == rest[0] + [sep] + Join(rest[1..], sep);
        }
      }
    }
  }

  /** Splitting a join of separator-free pieces gives back the pieces. */
  lemma {:induction false} SplitJoin(parts: seq<string>, sep: char)
    requires |parts| >= 1
    requires forall k :: 0 <= k < |parts| ==> sep !in parts[k]
    ensures Split(Join(parts, sep), sep) == parts
    decreases |parts|, |parts[0]|
  {
    var head := parts[0];
    if head == [] {
      if |parts| > 1 {
        assert Join(parts, sep) == [sep] + Join(parts[1..], sep);
        SplitJoin(parts[1..], sep);
        assert ([sep] + Join(parts[1..], sep))[1..] == Join(parts[1..], sep);
      }
    } else {
      var shorter := [head[1..]] + parts[1..];
      assert sep !in head[1..] by {
        assert forall c :: c in head[1..] ==> c in head;
      }
      SplitJoin(shorter, sep);
      assert shorter[1..] == parts[1..];
      var j := Join(parts, sep);
      if |parts| == 1 {
        assert j == head && j[1..] == Join(shorter, sep);
      } else {
        assert j == head + [sep] + Join(parts[1..], sep);
        assert Join(shorter, sep) == head[1..] + [sep] + Join(parts[1..], sep);
        assert j[1..] == Join(shorter, sep);
      }
      assert j[0] == head[0] && head[0] != sep;
      assert [head[0]] + head[1..] == head;
    }
  }
}
