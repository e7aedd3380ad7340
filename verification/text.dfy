/**
  The Go string primitives the router is built from: `unicode.IsSpace`,
  `strings.Fields`, `strings.TrimSpace`, `strings.HasPrefix` and `len` on a
  string, which counts the bytes of its UTF-8 encoding.
 */
module Text {

  /** `unicode.IsSpace`: the Latin-1 white space characters plus the other
      code points of Unicode's White_Space property. */
  predicate IsSpace(c: char) {
    var n := c as int;
    || n == 0x09 || n == 0x0A || n == 0x0B || n == 0x0C || n == 0x0D || n == 0x20
    || n == 0x85 || n == 0xA0
    || n == 0x1680 || (0x2000 <= n <= 0x200A) || n == 0x2028 || n == 0x2029
    || n == 0x202F || n == 0x205F || n == 0x3000
  }

  /** Below U+0100 the white-space characters are exactly tab, line feed,
      vertical tab, form feed, carriage return, space, NEL and no-break
      space; every other one lies between U+1680 and U+3000. */
  lemma IsSpaceLatin1(c: char)
    ensures (c as int) < 0x100 ==>
      (IsSpace(c) <==> c == '\t' || c == '\n' || c as int == 0x0B || c as int == 0x0C || c == '\r'
                       || c == ' ' || c as int == 0x85 || c as int == 0xA0)
    ensures IsSpace(c) && (c as int) >= 0x100 ==> 0x1680 <= c as int <= 0x3000
  {
  }

  predicate AllSpace(s: string) {
    forall i :: 0 <= i < |s| ==> IsSpace(s[i])
  }

  predicate NoSpace(s: string) {
    forall i :: 0 <= i < |s| ==> !IsSpace(s[i])
  }

  /** What `strings.Fields` yields: a non-empty run of non-space characters. */
  predicate IsToken(t: string) {
    |t| > 0 && NoSpace(t)
  }

  /** `strings.HasPrefix(s, p)`. */
  predicate HasPrefix(s: string, p: string): (b: bool)
    ensures b <==> |p| <= |s| && forall i :: 0 <= i < |p| ==> s[i] == p[i]
  {
    |p| <= |s| && s[..|p|] == p
  }

  /** Number of bytes UTF-8 uses for c. */
  function RuneLen(c: char): (n: nat)
    ensures 1 <= n <= 4
    ensures n == 1 <==> (c as int) < 0x80
  {
    var v := c as int;
    if v < 0x80 then 1 else if v < 0x800 then 2 else if v < 0x10000 then 3 else 4
  }

  /** Go's `len(s)`: the byte length of the UTF-8 encoding of s. */
  function ByteLen(s: string): (n: nat)
    ensures |s| <= n <= 4 * |s|
    ensures n == |s| <==> forall i :: 0 <= i < |s| ==> (s[i] as int) < 0x80
  {
    if s == [] then 0 else RuneLen(s[0]) + ByteLen(s[1..])
  }

  /** Length of the run of non-space characters at the head of s. */
  function WordLen(s: string): (n: nat)
    ensures n <= |s|
    ensures NoSpace(s[..n])
    ensures n < |s| ==> IsSpace(s[n])
  {
    if s == [] || IsSpace(s[0]) then 0
    else
      var n := 1 + WordLen(s[1..]);
      assert s[..n] == [s[0]] + s[1..][..n - 1];
      n
  }

  /** `strings.Fields`: the maximal runs of non-space characters, in order. */
  function Fields(s: string): (ts: seq<string>)
    ensures forall k :: 0 <= k < |ts| ==> IsToken(ts[k])
    ensures ts == [] <==> AllSpace(s)
    decreases |s|
  {
    if s == [] then []
    else if IsSpace(s[0]) then
      var ts := Fields(s[1..]);
      assert AllSpace(s[1..]) ==> AllSpace(s) by {
        if AllSpace(s[1..]) {
          forall i | 0 <= i < |s| ensures IsSpace(s[i]) {
            if i > 0 { assert s[i] == s[1..][i - 1]; }
          }
        }
      }
      ts
    else
      var n := WordLen(s);
      [s[..n]] + Fields(s[n..])
  }

  /** The inverse direction of `Fields`: tokens joined by single blanks. */
  function JoinWords(ts: seq<string>): string {
    if ts == [] then ""
    else if |ts| == 1 then ts[0]
    else ts[0] + " " + JoinWords(ts[1..])
  }

  lemma WordLenOfToken(t: string, rest: string)
    requires IsToken(t)
    requires rest == [] || IsSpace(rest[0])
    ensures WordLen(t + rest) == |t|
    decreases |t|
  {
    var s := t + rest;
    if |t| > 1 {
      assert s[1..] == t[1..] + rest;
      WordLenOfToken(t[1..], rest);
    } else {
      assert s[1..] == rest;
    }
  }

  /** A token followed by a blank is the first field. */
  lemma FieldsAfterToken(t: string, rest: string)
    requires IsToken(t)
    ensures Fields(t + " " + rest) == [t] + Fields(rest)
  {
    var s := t + " " + rest;
    assert s == t + (" " + rest);
    WordLenOfToken(t, " " + rest);
    assert s[..|t|] == t;
    assert s[|t|..] == " " + rest;
    assert (" " + rest)[1..] == rest;
  }

  /** A lone token is its only field. */
  lemma FieldsOfToken(t: string)
    requires IsToken(t)
    ensures Fields(t) == [t]
  {
    WordLenOfToken(t, []);
    assert t + [] == t;
    assert t[|t|..] == [];
    assert t[..|t|] == t;
  }

  /** Splitting blank-joined tokens gives the tokens back. */
  lemma {:induction false} FieldsOfJoinWords(ts: seq<string>)
    requires forall k :: 0 <= k < |ts| ==> IsToken(ts[k])
    ensures Fields(JoinWords(ts)) == ts
  {
    if ts == [] {
    } else if |ts| == 1 {
      FieldsOfToken(ts[0]);
    } else {
      FieldsAfterToken(ts[0], JoinWords(ts[1..]));
      FieldsOfJoinWords(ts[1..]);
      assert [ts[0]] + ts[1..] == ts;
    }
  }

  /** A white-space character separates fields: what lies before it and
      what lies after it are split independently. */
  lemma {:induction false} FieldsSplitAtSpace(a: string, c: char, b: string)
    requires IsSpace(c)
    ensures Fields(a + [c] + b) == Fields(a) + Fields(b)
    decreases |a|
  {
    var s := a + [c] + b;
    if a == [] {
      assert s == [c] + b && s[1..] == b;
    } else if IsSpace(a[0]) {
      assert s[1..] == a[1..] + [c] + b;
      FieldsSplitAtSpace(a[1..], c, b);
    } else {
      var n := WordLen(a);
      var rest := a[n..] + [c] + b;
      assert s == a[..n] + rest;
      assert IsToken(a[..n]);
      WordLenOfToken(a[..n], rest);
      assert s[..n] == a[..n] && s[n..] == rest;
      FieldsSplitAtSpace(a[n..], c, b);
    }
  }

  /** `strings.TrimLeft(s, spaces)`. */
  function TrimLeftSpace(s: string): (r: string)
    ensures |r| <= |s| && r == s[|s| - |r|..]
    ensures AllSpace(s[..|s| - |r|])
    ensures r != [] ==> !IsSpace(r[0])
  {
    if s != [] && IsSpace(s[0]) then
      var r := TrimLeftSpace(s[1..]);
      assert s[..|s| - |r|] == [s[0]] + s[1..][..|s| - 1 - |r|];
      r
    else s
  }

  /** `strings.TrimRight(s, spaces)`. */
  function TrimRightSpace(s: string): (r: string)
    ensures |r| <= |s| && r == s[..|r|]
    ensures AllSpace(s[|r|..])
    ensures r != [] ==> !IsSpace(r[|r| - 1])
  {
    if s != [] && IsSpace(s[|s| - 1]) then
      var r := TrimRightSpace(s[..|s| - 1]);
      assert s[|r|..] == s[..|s| - 1][|r|..] + [s[|s| - 1]];
      r
    else s
  }

  /** `strings.TrimSpace`: a contiguous slice of s that neither starts nor
      ends with white space, with only white space cut on either side. */
  function TrimSpace(s: string): (r: string)
    ensures r != [] ==> !IsSpace(r[0]) && !IsSpace(r[|r| - 1])
    ensures |r| <= |s|
  {
    TrimRightSpace(TrimLeftSpace(s))
  }

  /** Where the slice that `TrimSpace` keeps starts. */
  lemma TrimSpaceSlice(s: string) returns (i: nat)
    ensures i + |TrimSpace(s)| <= |s|
    ensures TrimSpace(s) == s[i..i + |TrimSpace(s)|]
    ensures AllSpace(s[..i]) && AllSpace(s[i + |TrimSpace(s)|..])
  {
    var l := TrimLeftSpace(s);
    var r := TrimRightSpace(l);
    i := |s| - |l|;
    assert s[i + |r|..] == l[|r|..];
  }

  /** A string free of surrounding white space is its own trim. */
  lemma TrimSpaceKeepsTrimmed(s: string)
    requires s == [] || (!IsSpace(s[0]) && !IsSpace(s[|s| - 1]))
    ensures TrimSpace(s) == s
  {
  }
}
