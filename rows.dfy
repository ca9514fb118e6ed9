/**
 * The rows of the subscriber export and the filter that decides which of them
 * reach `subscribe` (the three `continue` guards of `execute`).
 */
module Rows {
  import opened Subscribers

  /** One line of the export: email, status code and website id. The status and
      website columns are given already converted to integers. */
  datatype Row = Row(email: string, status: int, website: int)

  /** The only website whose rows are imported. */
  const TargetWebsite: int := 1

  /** The characters PHP's `trim` removes by default: space, tab, line feed,
      carriage return, NUL and vertical tab. */
  predicate IsSpace(c: char)
  {
    c == ' ' || c == '\t' || c == '\n' || c == '\r' || c == '\0' || c == '\U{000B}'
  }

  predicate AllSpace(s: string)
  {
    forall k :: 0 <= k < |s| ==> IsSpace(s[k])
  }

  /** `s` without its leading whitespace. */
  function TrimLeft(s: string): string
    decreases |s|
  {
    if s != [] && IsSpace(s[0]) then TrimLeft(s[1..]) else s
  }

  /** `s` without its trailing whitespace. */
  function TrimRight(s: string): string
    decreases |s|
  {
    if s != [] && IsSpace(s[|s| - 1]) then TrimRight(s[..|s| - 1]) else s
  }

  /** PHP's `trim`: `s` without its leading and trailing whitespace. */
  function Trim(s: string): string
  {
    TrimRight(TrimLeft(s))
  }

  /** `r` is `s` with the whitespace prefix `s[..i]` and a whitespace suffix removed. */
  predicate Strips(s: string, r: string, i: int)
  {
    0 <= i <= |s| - |r| && r == s[i..i + |r|] && AllSpace(s[..i]) && AllSpace(s[i + |r|..])
  }

  /** TrimLeft removes a whitespace prefix, and exactly all of it. */
  lemma {:induction false} TrimLeftStrips(s: string)
    ensures Strips(s, TrimLeft(s), |s| - |TrimLeft(s)|)
    ensures TrimLeft(s) == [] || !IsSpace(TrimLeft(s)[0])
    decreases |s|
  {
    if s != [] && IsSpace(s[0]) {
      TrimLeftStrips(s[1..]);
      var r := TrimLeft(s);
      assert s[1..][..|s| - 1 - |r|] == s[1..|s| - |r|];
      assert s[..|s| - |r|] == [s[0]] + s[1..|s| - |r|];
    }
  }

  /** TrimRight removes a whitespace suffix, and exactly all of it. */
  lemma {:induction false} TrimRightStrips(s: string)
    ensures Strips(s, TrimRight(s), 0)
    ensures TrimRight(s) == [] || !IsSpace(TrimRight(s)[|TrimRight(s)| - 1])
    decreases |s|
  {
    if s != [] && IsSpace(s[|s| - 1]) {
      var p := s[..|s| - 1];
      TrimRightStrips(p);
      var r := TrimRight(s);
      assert p[|r|..] + [s[|s| - 1]] == s[|r|..];
    }
  }

  /** Trim removes whitespace on both sides and keeps the middle of `s`: the
      result starts and ends with a non-space, and it is a slice of `s` whose
      surroundings are whitespace only. */
  lemma TrimStrips(s: string)
    ensures Trim(s) == [] || (!IsSpace(Trim(s)[0]) && !IsSpace(Trim(s)[|Trim(s)| - 1]))
    ensures Strips(s, Trim(s), |s| - |TrimLeft(s)|)
  {
    var left := TrimLeft(s);
    var both := Trim(s);
    var i := |s| - |left|;
    TrimLeftStrips(s);
    TrimRightStrips(left);
    assert s[i..i + |both|] == left[..|both|];
    assert s[i + |both|..] == left[|both|..];
  }

  /** The row filter: a row reaches `subscribe` exactly when its trimmed email
      is valid, its status is not Unsubscribed and its website is the target. */
  predicate Accepts(row: Row, isValid: string -> bool)
  {
    isValid(Trim(row.email)) && row.status != UnsubscribedCode && row.website == TargetWebsite
  }
}
