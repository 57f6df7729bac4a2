/** Joining strings with a separator, and the "append `part + sep` for every
    part, then cut the last separator" idiom that the C++ GUI and the Python
    scripts use to build their comma-separated texts. */
module Text {

  /** `sep.join(parts)` in Python terms. */
  function Join(parts: seq<string>, sep: string): string
  {
    if |parts| == 0 then ""
    else if |parts| == 1 then parts[0]
    else parts[0] + sep + Join(parts[1..], sep)
  }

  /** The text built by `for p in parts: s += p + sep`. */
  function Terminated(parts: seq<string>, sep: string): (s: string)
  {
    if parts == [] then "" else parts[0] + sep + Terminated(parts[1..], sep)
  }

  /** Dropping the last `n` characters, saturating at the empty string: both
      `str.substr(0, str.size() - n)` on a string at least `n` long and the
      Python slice `str[:-n]` / `str[:len(str) - n]`. */
  function DropLast(s: string, n: nat): (r: string)
    ensures |r| == if |s| <= n then 0 else |s| - n
    ensures r <= s
  {
    if |s| <= n then "" else s[..|s| - n]
  }

  /** Cutting the trailing separator off the accumulated text gives the join. */
  lemma {:induction false} DropTerminator(parts: seq<string>, sep: string)
    ensures DropLast(Terminated(parts, sep), |sep|) == Join(parts, sep)
  {
    if parts != [] {
      TerminatedIsJoinPlusSep(parts, sep);
    }
  }

  lemma {:induction false} TerminatedIsJoinPlusSep(parts: seq<string>, sep: string)
    requires parts != []
    ensures Terminated(parts, sep) == Join(parts, sep) + sep
    decreases |parts|
  {
    if |parts| > 1 {
      TerminatedIsJoinPlusSep(parts[1..], sep);
      assert Terminated(parts, sep) == parts[0] + sep + (Join(parts[1..], sep) + sep);
    } else {
      assert parts[1..] == [];
    }
  }

  /** Joining one more part at the front. */
  lemma JoinCons(head: string, tail: seq<string>, sep: string)
    requires tail != []
    ensures Join([head] + tail, sep) == head + sep + Join(tail, sep)
  {
    assert ([head] + tail)[1..] == tail;
  }
}
