/**
 * The two string operations the datacenter filter relies on: Python's
 * `str.upper()` (on ASCII letters) and `str.split(sep)` with an explicit
 * one-character separator.
 */
module Text {

  /** Upper-case one character; only the ASCII letters a..z change. */
  function UpperChar(c: char): char
  {
    if 'a' <= c <= 'z' then (c as int - 32) as char else c
  }

  /** `s.upper()`: upper-cases every character, keeping length and positions. */
  function Upper(s: string): (r: string)
    ensures |r| == |s|
    ensures forall i :: 0 <= i < |s| ==> r[i] == UpperChar(s[i])
  {
    if s == [] then [] else [UpperChar(s[0])] + Upper(s[1..])
  }

  /** Upper-casing twice is upper-casing once. */
  lemma UpperIdempotent(s: string)
    ensures Upper(Upper(s)) == Upper(s)
  {
    var u := Upper(s);
    assert forall i :: 0 <= i < |s| ==> UpperChar(u[i]) == u[i];
  }

  /** Upper-casing distributes over concatenation. */
  lemma UpperAppend(a: string, b: string)
    ensures Upper(a + b) == Upper(a) + Upper(b)
  {
    var u, v := Upper(a + b), Upper(a) + Upper(b);
    forall i | 0 <= i < |a + b| ensures u[i] == v[i] {
      if i < |a| {
        assert (a + b)[i] == a[i];
      } else {
        assert (a + b)[i] == b[i - |a|];
      }
    }
    assert u == v;
  }

  /**
   * `s.split(sep)`: the maximal separator-free pieces of `s`, in order.
   * There is always at least one piece (`"".split(",") == [""]`), pieces
   * may be empty, and nothing is trimmed.
   */
  function Split(s: string, sep: char): (r: seq<string>)
    ensures |r| >= 1
    ensures forall i :: 0 <= i < |r| ==> sep !in r[i]
  {
    if s == [] then [""]
    else
      var rest := Split(s[1..], sep);
      if s[0] == sep then [""] + rest
      else [[s[0]] + rest[0]] + rest[1..]
  }

  /** `sep.join(parts)`. */
  function Join(parts: seq<string>, sep: char): string
  {
    if parts == [] then ""
    else if |parts| == 1 then parts[0]
    else parts[0] + [sep] + Join(parts[1..], sep)
  }

  /** Splitting loses nothing: joining the pieces gives back the string. */
  lemma {:induction false} JoinSplit(s: string, sep: char)
    ensures Join(Split(s, sep), sep) == s
  {
    if s != [] {
      var rest := Split(s[1..], sep);
      JoinSplit(s[1..], sep);
      if s[0] == sep {
        assert Split(s, sep) == [""] + rest;
        assert s == [sep] + s[1..];
      } else {
        var r := Split(s, sep);
        assert r == [[s[0]] + rest[0]] + rest[1..];
        if |rest| == 1 {
          assert s == [s[0]] + rest[0];
        } else {
          assert Join(rest, sep) == rest[0] + [sep] + Join(rest[1..], sep);
          assert r[1..] == rest[1..];
          assert s == [s[0]] + Join(rest, sep);
        }
      }
    }
  }

  /** Joining separator-free pieces and splitting again gives back the pieces. */
  lemma {:induction false} SplitJoin(parts: seq<string>, sep: char)
    requires |parts| >= 1
    requires forall i :: 0 <= i < |parts| ==> sep !in parts[i]
    ensures Split(Join(parts, sep), sep) == parts
    decreases |parts|, |parts[0]|
  {
    var p := parts[0];
    if p == [] {
      if |parts| > 1 {
        var tail := Join(parts[1..], sep);
        SplitJoin(parts[1..], sep);
        assert Join(parts, sep) == [sep] + tail;
        assert ([sep] + tail)[1..] == tail;
      }
    } else {
      var shorter := [p[1..]] + parts[1..];
      assert shorter[1..] == parts[1..];
      SplitJoin(shorter, sep);
      var j := Join(parts, sep);
      assert j == [p[0]] + Join(shorter, sep) by {
        if |parts| > 1 {
          assert j == p + [sep] + Join(parts[1..], sep);
        }
      }
      assert j[1..] == Join(shorter, sep);
      assert p[0] in p;
      assert [p[0]] + p[1..] == p;
    }
  }

  /** A character that is not an ASCII letter is upper-cased only from itself. */
  predicate NotLetter(c: char)
  {
    !('a' <= c <= 'z') && !('A' <= c <= 'Z')
  }

  /** Upper-cases every piece of a list. */
  function UpperEach(parts: seq<string>): (r: seq<string>)
    ensures |r| == |parts|
  {
    if parts == [] then [] else [Upper(parts[0])] + UpperEach(parts[1..])
  }

  /** Upper-casing commutes with splitting on a character that is not a letter. */
  lemma {:induction false} SplitUpper(s: string, sep: char)
    requires NotLetter(sep)
    ensures Split(Upper(s), sep) == UpperEach(Split(s, sep))
  {
    if s != [] {
      SplitUpper(s[1..], sep);
      var u := Upper(s);
      assert u[1..] == Upper(s[1..]);
      var rest := Split(s[1..], sep);
      var urest := Split(u[1..], sep);
      assert urest == UpperEach(rest);
      if s[0] == sep {
        assert u[0] == sep;
        assert Split(s, sep) == [""] + rest;
        assert ([""] + rest)[1..] == rest;
      } else {
        assert u[0] != sep;
        var first := [s[0]] + rest[0];
        assert Split(s, sep) == [first] + rest[1..];
        UpperAppend([s[0]], rest[0]);
        assert Upper([s[0]]) == [u[0]];
        assert ([first] + rest[1..])[1..] == rest[1..];
        assert UpperEach(rest)[1..] == UpperEach(rest[1..]);
      }
    }
  }
}
