/** The few Python `str` built-ins the bot relies on (`isspace`, `strip`,
    `lower`, `" ".join`, `"".join`), restricted to ASCII: characters
    outside ASCII are never whitespace and are left unchanged by `Lower`. */
module PyStr {

  /** `c.isspace()` for an ASCII character: space, \t, \n, \v, \f, \r and
      the four separators \x1c-\x1f. */
  predicate IsSpace(c: char) {
    c == ' ' || ('\t' <= c <= '\r') || ('\U{1C}' <= c <= '\U{1F}')
  }

  /** Every character of `s` is whitespace (vacuously so for ""). */
  predicate AllSpace(s: string) {
    forall k :: 0 <= k < |s| ==> IsSpace(s[k])
  }

  /** Length of the longest all-whitespace prefix of `s`. */
  function LeadingSpaces(s: string): (n: nat)
    ensures n <= |s|
    ensures forall k :: 0 <= k < n ==> IsSpace(s[k])
    ensures n < |s| ==> !IsSpace(s[n])
  {
    if s != [] && IsSpace(s[0]) then 1 + LeadingSpaces(s[1..]) else 0
  }

  /** Length of the longest all-whitespace suffix of `s`. */
  function TrailingSpaces(s: string): (n: nat)
    ensures n <= |s|
    ensures forall k :: |s| - n <= k < |s| ==> IsSpace(s[k])
    ensures n < |s| ==> !IsSpace(s[|s| - n - 1])
  {
    if s != [] && IsSpace(s[|s| - 1]) then 1 + TrailingSpaces(s[..|s| - 1]) else 0
  }

  /** `s.strip()`: `s` without its leading and trailing whitespace. */
  function Strip(s: string): (r: string)
  {
    var i := LeadingSpaces(s);
    s[i..|s| - TrailingSpaces(s[i..])]
  }

  /** What `strip` promises: the result is the slice `s[i..j]` left when the
      whitespace run before `i` and the one from `j` on are cut, and neither
      end of the result is whitespace. */
  lemma StripSlice(s: string) returns (i: nat, j: nat)
    ensures i <= j <= |s| && Strip(s) == s[i..j]
    ensures forall k :: 0 <= k < i || j <= k < |s| ==> IsSpace(s[k])
    ensures i < j ==> !IsSpace(s[i]) && !IsSpace(s[j - 1])
  {
    i := LeadingSpaces(s);
    var rest := s[i..];
    var t := TrailingSpaces(rest);
    j := |s| - t;
    forall k | j <= k < |s| ensures IsSpace(s[k]) {
      assert s[k] == rest[k - i];
    }
    if i < j {
      assert s[j - 1] == rest[|rest| - t - 1];
    }
  }

  /** `strip()` is falsy exactly for an all-whitespace string. */
  lemma StripEmptyIff(s: string)
    ensures Strip(s) == [] <==> AllSpace(s)
  {
    var i, j := StripSlice(s);
    if i < j {
      assert Strip(s) != [] && !IsSpace(s[i]);
    }
  }

  /** A concatenation is all whitespace exactly when both parts are. */
  lemma AllSpaceConcat(a: string, b: string)
    ensures AllSpace(a + b) <==> AllSpace(a) && AllSpace(b)
  {
    if AllSpace(a + b) {
      forall k | 0 <= k < |a| ensures IsSpace(a[k]) {
        assert a[k] == (a + b)[k];
      }
      forall k | 0 <= k < |b| ensures IsSpace(b[k]) {
        assert b[k] == (a + b)[|a| + k];
      }
    }
  }

  /** `c.lower()` for an ASCII character. */
  function LowerChar(c: char): char {
    if 'A' <= c <= 'Z' then (c as int + 32) as char else c
  }

  /** `s.lower()`, character by character. */
  function Lower(s: string): (r: string)
  {
    seq(|s|, k requires 0 <= k < |s| => LowerChar(s[k]))
  }

  /** `sep.join(words)`. */
  function Join(sep: string, words: seq<string>): (r: string)
  {
    if |words| == 0 then ""
    else if |words| == 1 then words[0]
    else words[0] + sep + Join(sep, words[1..])
  }

  /** `"".join(parts)`. */
  function Concat(parts: seq<string>): (r: string)
  {
    if parts == [] then "" else parts[0] + Concat(parts[1..])
  }

  /** Joining words with a single space is blank exactly when every word is. */
  lemma {:induction false} JoinSpaceAllSpace(words: seq<string>)
    ensures AllSpace(Join(" ", words)) <==> forall k :: 0 <= k < |words| ==> AllSpace(words[k])
  {
    if |words| > 1 {
      JoinSpaceAllSpace(words[1..]);
      AllSpaceConcat(words[0], " ");
      AllSpaceConcat(words[0] + " ", Join(" ", words[1..]));
      if AllSpace(Join(" ", words[1..])) && AllSpace(words[0]) {
        forall k | 0 <= k < |words| ensures AllSpace(words[k]) {
          if k > 0 { assert words[k] == words[1..][k - 1]; }
        }
      }
    }
  }
}
