/** `key_from_privhex` of crypto.py: a private key given as hex text, in any
    case, with or without `0x` markers. */
module Crypto {
  import opened Wrappers
  import opened Bytes
  import opened HexCodec

  /** `str.lower()` on ASCII letters; every other character is kept. */
  function LowerChar(c: char): (d: char)
    ensures 'A' <= c <= 'Z' ==> d as int == c as int + 32
    ensures !('A' <= c <= 'Z') ==> d == c
  {
    if 'A' <= c <= 'Z' then (c as int + 32) as char else c
  }

  function Lower(s: string): (t: string)
    ensures |t| == |s|
    ensures forall i :: 0 <= i < |s| ==> t[i] == LowerChar(s[i])
  {
    seq(|s|, i requires 0 <= i < |s| => LowerChar(s[i]))
  }

  /** Lowering leaves no ASCII capital, keeps every other character where
      it is, and so changes nothing the second time. */
  lemma LowerIdempotent(s: string)
    ensures forall i :: 0 <= i < |s| ==> !('A' <= Lower(s)[i] <= 'Z')
    ensures forall i :: 0 <= i < |s| && !('A' <= s[i] <= 'Z') ==> Lower(s)[i] == s[i]
    ensures Lower(Lower(s)) == Lower(s)
  {
  }

  /** `s.replace("0x", "")`: one scan from the left, removing non-overlapping
      occurrences; text that only becomes "0x" after a removal is kept. */
  function RemoveZeroX(s: string): (t: string)
    ensures |t| <= |s|
  {
    if |s| >= 2 && s[0] == '0' && s[1] == 'x' then RemoveZeroX(s[2..])
    else if s == [] then []
    else [s[0]] + RemoveZeroX(s[1..])
  }

  /** `key_from_privhex(hex_priv)`. */
  function KeyFromPrivHex(hexPriv: string): (r: Result<seq<byte>, HexError>)
  {
    DecodeHex(RemoveZeroX(Lower(hexPriv)))
  }

  /** Text without an 'x' has nothing for the replace to remove. */
  lemma {:induction false} RemoveZeroXNoX(s: string)
    requires 'x' !in s
    ensures RemoveZeroX(s) == s
  {
    if s != [] {
      RemoveZeroXNoX(s[1..]);
      assert [s[0]] + s[1..] == s;
    }
  }

  /** Every marker is removed, not only a leading one: a marker after any
      text free of 'x' disappears and the text around it is kept. */
  lemma {:induction false} RemoveZeroXAfter(a: string, b: string)
    requires 'x' !in a
    ensures RemoveZeroX(a + "0x" + b) == a + RemoveZeroX(b)
  {
    if a == [] {
      assert a + "0x" + b == "0x" + b;
      assert ("0x" + b)[2..] == b;
    } else {
      assert (a + "0x" + b)[1..] == a[1..] + "0x" + b;
      RemoveZeroXAfter(a[1..], b);
      assert [a[0]] + (a[1..] + RemoveZeroX(b)) == a + RemoveZeroX(b);
    }
  }

  /** The replace is a single pass: "00xx" keeps the "0x" that its removal
      leaves behind (and so the key is then rejected). */
  lemma RemoveZeroXSinglePass()
    ensures RemoveZeroX("00xx") == "0x"
    ensures KeyFromPrivHex("00xx") == Err(NotHexDigit(1))
  {
    assert "00xx"[1..] == "0xx";
    assert "0xx"[2..] == "x";
    assert "x"[1..] == "";
    assert RemoveZeroX("0x") == RemoveZeroX("");
  }

  /** Lower-case hex text is left alone by the lowering and the replace. */
  lemma LowerHexUnchanged(s: string)
    requires AllLowerHexDigits(s)
    ensures Lower(s) == s && RemoveZeroX(Lower(s)) == s
  {
    RemoveZeroXNoX(s);
  }

  /** Round trip with the form the tool prints, `0x{priv.hex()}`, and with the
      bare digits: both give back the key. */
  lemma KeyFromPrivHexRoundTrip(priv: seq<byte>)
    ensures KeyFromPrivHex("0x" + Hex(priv)) == Ok(priv)
    ensures KeyFromPrivHex(Hex(priv)) == Ok(priv)
  {
    var h := Hex(priv);
    LowerHexUnchanged(h);
    assert Lower("0x" + h) == "0x" + h;
    RemoveZeroXAfter("", h);
    assert "" + "0x" + h == "0x" + h;
    DecodeHexOfHex(priv);
  }

  /** Lowering first makes the key case-insensitive. */
  lemma KeyFromPrivHexIgnoresCase(s: string)
    ensures KeyFromPrivHex(Lower(s)) == KeyFromPrivHex(s)
  {
    LowerIdempotent(s);
  }

  /** Because of the lowering, an upper-case `0X` marker is removed as well. */
  lemma KeyFromPrivHexUpperMarker(s: string)
    ensures KeyFromPrivHex("0X" + s) == KeyFromPrivHex(s)
  {
    assert Lower("0X" + s) == "0x" + Lower(s);
    RemoveZeroXAfter("", Lower(s));
    assert "" + "0x" + Lower(s) == "0x" + Lower(s);
  }

  /** A marker between the digits is removed too, not only a leading one. */
  lemma KeyFromPrivHexInnerMarker(a: string, b: string)
    requires AllLowerHexDigits(a) && AllLowerHexDigits(b)
    ensures KeyFromPrivHex(a + "0x" + b) == DecodeHex(a + b)
  {
    LowerHexUnchanged(a);
    LowerHexUnchanged(b);
    assert Lower(a + "0x" + b) == a + "0x" + b;
    RemoveZeroXAfter(a, b);
  }
}
