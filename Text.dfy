/**
 * The string operations the form script relies on: `String.prototype.trim`
 * (used to decide whether a field is blank) and `String.prototype.split`
 * with a one-character separator (used to pick the e-mail domain).
 */
module Text {

  /** The white-space characters removed by trim (a fixed set: ASCII
      white space, no-break space and the byte-order mark). */
  predicate IsSpace(c: char) {
    c == ' ' || c == '\t' || c == '\n' || c == '\r' ||
    c == '\U{B}' || c == '\U{C}' || c == '\U{A0}' || c == '\U{FEFF}'
  }

  /** Every character of `s` is white space. */
  predicate AllSpace(s: string) {
    forall i :: 0 <= i < |s| ==> IsSpace(s[i])
  }

  /** `s` with its leading white space removed. */
  function TrimStart(s: string): (r: string)
    ensures |r| <= |s|
    ensures r == [] || !IsSpace(r[0])
  {
    if |s| > 0 && IsSpace(s[0]) then TrimStart(s[1..]) else s
  }

  /** `s` with its trailing white space removed. */
  function TrimEnd(s: string): (r: string)
    ensures |r| <= |s| && r == s[..|r|]
    ensures r == [] || !IsSpace(r[|r| - 1])
  {
    if |s| > 0 && IsSpace(s[|s| - 1]) then TrimEnd(s[..|s| - 1]) else s
  }

  /** `s.trim()`: `s` without its leading and trailing white space; it
      neither starts nor ends with white space, and it is empty exactly when
      `s` is all white space. `TrimSlice` says which part of `s` it is. */
  function Trim(s: string): (r: string)
    ensures |r| <= |s|
    ensures r == [] || (!IsSpace(r[0]) && !IsSpace(r[|r| - 1]))
    ensures r == [] <==> AllSpace(s)
  {
    var t := TrimStart(s);
    TrimStartEmpty(s);
    TrimEndEmpty(t);
    assert t != [] ==> !AllSpace(t);
    TrimEnd(t)
  }

  /** Trimming the start drops a white-space prefix and keeps the rest. */
  lemma {:induction false} TrimStartSlice(s: string)
    ensures |TrimStart(s)| <= |s|
    ensures TrimStart(s) == s[|s| - |TrimStart(s)|..]
    ensures AllSpace(s[..|s| - |TrimStart(s)|])
  {
    if |s| > 0 && IsSpace(s[0]) {
      TrimStartSlice(s[1..]);
      var k := |s| - |TrimStart(s)|;
      assert s[1..][k - 1..] == s[k..];
      assert forall i :: 0 < i < k ==> s[..k][i] == s[1..][..k - 1][i - 1];
    }
  }

  /** Trimming the end drops a white-space suffix and keeps the rest. */
  lemma {:induction false} TrimEndSlice(s: string)
    ensures AllSpace(s[|TrimEnd(s)|..])
  {
    if |s| > 0 && IsSpace(s[|s| - 1]) {
      var init := s[..|s| - 1];
      TrimEndSlice(init);
      var k := |TrimEnd(s)|;
      assert forall i :: k <= i < |s| - 1 ==> s[i] == init[i];
    }
  }

  /** `s.trim()` is the part of `s` between a white-space prefix and a
      white-space suffix. */
  lemma TrimSlice(s: string)
    ensures exists i, j :: 0 <= i <= j <= |s| && Trim(s) == s[i..j] &&
                           AllSpace(s[..i]) && AllSpace(s[j..])
  {
    var t := TrimStart(s);
    TrimStartSlice(s);
    TrimEndSlice(t);
    var i := |s| - |t|;
    var j := i + |TrimEnd(t)|;
    assert Trim(s) == TrimEnd(t);
    assert TrimEnd(t) == s[i..j];
    assert s[j..] == t[|TrimEnd(t)|..];
  }

  /** Trimming the start leaves nothing exactly when all is white space. */
  lemma {:induction false} TrimStartEmpty(s: string)
    ensures TrimStart(s) == [] <==> AllSpace(s)
  {
    if |s| > 0 && IsSpace(s[0]) {
      TrimStartEmpty(s[1..]);
      assert AllSpace(s[1..]) ==> AllSpace(s) by {
        if AllSpace(s[1..]) {
          forall i | 0 < i < |s| ensures IsSpace(s[i]) { assert s[i] == s[1..][i - 1]; }
        }
      }
    }
  }

  /** Trimming the end leaves nothing exactly when all is white space. */
  lemma {:induction false} TrimEndEmpty(s: string)
    ensures TrimEnd(s) == [] <==> AllSpace(s)
  {
    if |s| > 0 && IsSpace(s[|s| - 1]) {
      var init := s[..|s| - 1];
      TrimEndEmpty(init);
      assert AllSpace(init) ==> AllSpace(s) by {
        if AllSpace(init) {
          forall i | 0 <= i < |s| - 1 ensures IsSpace(s[i]) { assert s[i] == init[i]; }
        }
      }
    }
  }

  /** `s.trim() === ""`: the value is all white space. */
  function Blank(s: string): (b: bool)
    ensures b <==> AllSpace(s)
  {
    Trim(s) == []
  }

  /** `s.split(sep)` for a one-character separator: the pieces of `s` between
      occurrences of `sep`, in order; there is always at least one. */
  function Split(s: string, sep: char): (parts: seq<string>)
    ensures |parts| >= 1
    ensures forall i :: 0 <= i < |parts| ==> sep !in parts[i]
  {
    if s == [] then [[]]
    else
      var rest := Split(s[1..], sep);
      if s[0] == sep then [[]] + rest
      else [[s[0]] + rest[0]] + rest[1..]
  }

  /** `parts.join(sep)`, the inverse of `Split`. */
  function Join(parts: seq<string>, sep: char): string
    requires |parts| >= 1
  {
    if |parts| == 1 then parts[0] else parts[0] + [sep] + Join(parts[1..], sep)
  }

  /** Splitting loses nothing: joining the pieces gives back the string. */
  lemma {:induction false} JoinSplit(s: string, sep: char)
    ensures Join(Split(s, sep), sep) == s
  {
    if s != [] {
      var rest := Split(s[1..], sep);
      JoinSplit(s[1..], sep);
      if s[0] == sep {
        assert Split(s, sep)[1..] == rest;
      } else {
        var parts := Split(s, sep);
        assert parts[1..] == rest[1..];
        if |rest| == 1 {
          assert Join(parts, sep) == [s[0]] + rest[0];
        } else {
          assert Join(parts, sep) == [s[0]] + (rest[0] + [sep] + Join(rest[1..], sep));
        }
        assert s == [s[0]] + s[1..];
      }
    }
  }

  /** A string splits into more than one piece exactly when it holds the
      separator. */
  lemma SplitOnce(s: string, sep: char)
    ensures |Split(s, sep)| > 1 <==> sep in s
  {
    if sep in s {
      JoinSplit(s, sep);
    } else {
      SplitPiece(s, [], sep);
      assert s + [] == s;
    }
  }

  /** Pieces free of the separator are recovered exactly by splitting their
      join: in particular the piece at index 1 is what follows the first
      separator, up to the next one. */
  lemma {:induction false} SplitJoin(parts: seq<string>, sep: char)
    requires |parts| >= 1
    requires forall i :: 0 <= i < |parts| ==> sep !in parts[i]
    ensures Split(Join(parts, sep), sep) == parts
  {
    if |parts| == 1 {
      SplitPiece(parts[0], [], sep);
      assert parts[0] + [] == parts[0];
    } else {
      var tail := Join(parts[1..], sep);
      SplitJoin(parts[1..], sep);
      SplitPiece(parts[0], [sep] + tail, sep);
      assert Join(parts, sep) == parts[0] + ([sep] + tail);
      assert ([sep] + tail)[1..] == tail;
      assert parts == [parts[0]] + parts[1..];
    }
  }

  /** Splitting `w + t`, where `w` holds no separator and `t` is empty or
      starts with one, puts exactly `w` into the first piece. */
  lemma {:induction false} SplitPiece(w: string, t: string, sep: char)
    requires sep !in w
    requires t == [] || t[0] == sep
    ensures Split(w + t, sep) ==
      (if t == [] then [w] else [w] + Split(t[1..], sep))
  {
    if w == [] {
      assert w + t == t;
    } else {
      SplitPiece(w[1..], t, sep);
      assert (w + t)[1..] == w[1..] + t;
      assert [w[0]] + w[1..] == w;
    }
  }
}
