/**
 Python's `str.split(sep)` for a one-character separator, and `sep.join(parts)`
 on a non-empty `parts`, used as the inverse of `split`.
 `split` cuts the string at every occurrence of the separator and keeps empty
 pieces, so it always returns at least one piece and joining the pieces with the
 separator gives the string back.
 */
module PyStr {

  /** `sep.join(parts)` on a non-empty `parts`, used as the inverse of `Split`. */
  function Join(parts: seq<string>, sep: char): (s: string)
    requires |parts| >= 1
    decreases |parts|
  {
    if |parts| == 1 then parts[0] else parts[0] + [sep] + Join(parts[1..], sep)
  }

  /** No piece contains the separator. */
  predicate SepFree(parts: seq<string>, sep: char) {
    forall i | 0 <= i < |parts| :: sep !in parts[i]
  }

  /** `s.split(sep)`. */
  function Split(s: string, sep: char): (parts: seq<string>)
    ensures |parts| >= 1
    ensures SepFree(parts, sep)
    ensures Join(parts, sep) == s
    decreases |s|
  {
    if s == [] then [[]]
    else
      var rest := Split(s[1..], sep);
      if s[0] == sep then
        var parts := [[]] + rest;
        assert parts[1..] == rest;
        assert s == [s[0]] + s[1..];
        parts
      else
        var parts := [[s[0]] + rest[0]] + rest[1..];
        assert |rest| > 1 ==> parts[1..] == rest[1..];
        assert s == [s[0]] + s[1..];
        parts
  }

  /** Split is the only way to cut `s` into separator-free pieces that join back to `s`. */
  lemma {:induction false} SplitUnique(s: string, sep: char, parts: seq<string>)
    requires |parts| >= 1 && SepFree(parts, sep) && Join(parts, sep) == s
    ensures parts == Split(s, sep)
    decreases |s|
  {
    if s != [] {
      var rest := Split(s[1..], sep);
      if parts[0] == [] {
        // s starts with the separator that follows the empty first piece
        assert |parts| > 1;
        assert s == [sep] + Join(parts[1..], sep);
        assert s[1..] == Join(parts[1..], sep);
        assert SepFree(parts[1..], sep) by {
          forall i | 0 <= i < |parts| - 1 ensures sep !in parts[1..][i] {
            assert parts[1..][i] == parts[i + 1];
          }
        }
        SplitUnique(s[1..], sep, parts[1..]);
        assert parts == [[]] + parts[1..];
      } else {
        // s starts with the first character of the first piece
        var p0 := parts[0];
        assert s[0] == p0[0] && p0[0] != sep by {
          assert p0[0] in p0;
          if |parts| > 1 {
            assert s == p0 + ([sep] + Join(parts[1..], sep));
          }
        }
        var tail := [p0[1..]] + parts[1..];
        assert SepFree(tail, sep) by {
          forall i | 0 <= i < |tail| ensures sep !in tail[i] {
            if i == 0 {
              assert forall c | c in p0[1..] :: c in p0;
            } else {
              assert tail[i] == parts[i];
            }
          }
        }
        assert Join(tail, sep) == s[1..] by {
          if |parts| == 1 {
            assert s == p0;
          } else {
            assert tail[1..] == parts[1..];
            assert s == p0 + [sep] + Join(parts[1..], sep);
            assert p0 == [p0[0]] + p0[1..];
          }
        }
        SplitUnique(s[1..], sep, tail);
        assert p0 == [s[0]] + tail[0];
        assert parts == [p0] + tail[1..];
      }
    }
  }
}
