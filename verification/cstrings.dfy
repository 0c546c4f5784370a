/** The C string primitives the gateway relies on: a `char` buffer seen as
    bytes, the NUL-terminated text that `strlen`/`strstr` see in it, and the
    first-occurrence search of `strstr`. */
module CStrings {

  datatype Option<+T> = None | Some(value: T)

  /** One byte of a C `char` buffer, seen through its Latin-1 code point so
      that string literals can stand for byte strings. */
  type Byte = c: char | c as int < 256 witness '\0'

  const NUL: Byte := '\0'
  const CRLF: seq<Byte> := "\r\n"
  /** The empty line that ends the header section. */
  const CRLFCRLF: seq<Byte> := "\r\n\r\n"

  predicate NoNul(s: seq<Byte>) {
    forall i :: 0 <= i < |s| ==> s[i] != NUL
  }

  predicate NoLineBreak(s: seq<Byte>) {
    forall i :: 0 <= i < |s| ==> s[i] != '\r' && s[i] != '\n'
  }

  /** `strlen`: the index of the first NUL, or the whole length when the
      bytes hold none (the caller's buffer then supplies the terminator). */
  function StrLen(s: seq<Byte>): (n: nat)
    ensures n <= |s|
    ensures NoNul(s[..n])
    ensures n < |s| ==> s[n] == NUL
  {
    if s == [] then 0
    else if s[0] == NUL then 0
    else
      var k := StrLen(s[1..]);
      assert s[..k + 1] == [s[0]] + s[1..][..k];
      k + 1
  }

  /** The text a string function sees: everything before the first NUL. */
  function CText(s: seq<Byte>): (t: seq<Byte>)
    ensures |t| <= |s| && t == s[..|t|] && NoNul(t)
    ensures |t| < |s| ==> s[|t|] == NUL
  {
    s[..StrLen(s)]
  }

  /** A NUL at position k ends the text no later than k. */
  lemma CTextBeforeTerminator(s: seq<Byte>, k: nat)
    requires k < |s| && s[k] == NUL
    ensures CText(s) == CText(s[..k])
  {
    StrLenBeforeTerminator(s, k);
  }

  lemma {:induction false} StrLenBeforeTerminator(s: seq<Byte>, k: nat)
    requires k < |s| && s[k] == NUL
    ensures StrLen(s) == StrLen(s[..k])
  {
    if k > 0 && s[0] != NUL {
      assert s[1..][..k - 1] == s[..k][1..];
      StrLenBeforeTerminator(s[1..], k - 1);
    }
  }

  /** Text without NUL is its own C text. */
  lemma CTextOfNoNul(s: seq<Byte>)
    requires NoNul(s)
    ensures CText(s) == s
  {
    var n := StrLen(s);
  }

  /** A NUL-free prefix is seen whole, followed by what is seen of the rest. */
  lemma CTextAfterNoNul(pre: seq<Byte>, s: seq<Byte>)
    requires NoNul(pre)
    ensures CText(pre + s) == pre + CText(s)
  {
    StrLenAfterNoNul(pre, s);
    assert (pre + s)[..|pre| + StrLen(s)] == pre + s[..StrLen(s)];
  }

  lemma {:induction false} StrLenAfterNoNul(pre: seq<Byte>, s: seq<Byte>)
    requires NoNul(pre)
    ensures StrLen(pre + s) == |pre| + StrLen(s)
  {
    if pre == [] {
      assert pre + s == s;
    } else {
      assert (pre + s)[0] == pre[0];
      assert (pre + s)[1..] == pre[1..] + s;
      StrLenAfterNoNul(pre[1..], s);
    }
  }

  predicate OccursAt(text: seq<Byte>, pat: seq<Byte>, i: nat) {
    i + |pat| <= |text| && text[i..i + |pat|] == pat
  }

  predicate HasPrefix(s: seq<Byte>, p: seq<Byte>) {
    OccursAt(s, p, 0)
  }

  /** `strstr` started at index i: the first index at or after i where the
      pattern occurs. */
  function FindFrom(text: seq<Byte>, pat: seq<Byte>, i: nat): (r: Option<nat>)
    requires i <= |text|
    ensures r.Some? ==> i <= r.value && OccursAt(text, pat, r.value)
    ensures r.Some? ==> forall j :: i <= j < r.value ==> !OccursAt(text, pat, j)
    ensures r.None? ==> forall j :: i <= j ==> !OccursAt(text, pat, j)
    decreases |text| - i
  {
    if OccursAt(text, pat, i) then Some(i)
    else if i + |pat| >= |text| then None
    else FindFrom(text, pat, i + 1)
  }

  /** `strstr`: the first occurrence of the pattern in the text. */
  function Find(text: seq<Byte>, pat: seq<Byte>): (r: Option<nat>)
    ensures r.Some? <==> exists j :: OccursAt(text, pat, j)
    ensures r.Some? ==> OccursAt(text, pat, r.value)
    ensures r.Some? ==> forall j: nat :: j < r.value ==> !OccursAt(text, pat, j)
  {
    FindFrom(text, pat, 0)
  }

  /** The first occurrence is determined by the two facts that define it. */
  lemma FindIsFirst(text: seq<Byte>, pat: seq<Byte>, k: nat)
    requires OccursAt(text, pat, k)
    requires forall j: nat :: j < k ==> !OccursAt(text, pat, j)
    ensures Find(text, pat) == Some(k)
  {
    var r := Find(text, pat);
    assert r.Some?;
  }
}
