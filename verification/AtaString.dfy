/**
 * The strings of IDENTIFY DEVICE: two characters to a word, the first in the high byte, padded with
 * spaces. The C driver and the Rust driver cut the padding off in different ways.
 */
module AtaString {
  import opened Common

  const SPACE: byte := 32

  /** The characters of `n` words from `ofs`. */
  function Chars(id: seq<word>, ofs: nat, n: nat): (t: seq<byte>)
    requires ofs + n <= |id|
    ensures |t| == 2 * n
    decreases n
  {
    if n == 0 then [] else [id[ofs] / 0x100, id[ofs] % 0x100] + Chars(id, ofs + 1, n - 1)
  }

  function Stripped(t: seq<byte>): (r: seq<byte>)
    ensures |r| <= |t| && r == t[..|r|]
  {
    if t != [] && t[|t| - 1] == SPACE then Stripped(t[..|t| - 1]) else t
  }

  function UpToNul(t: seq<byte>): (r: seq<byte>)
    ensures |r| <= |t| && r == t[..|r|] && 0 !in r
    ensures |r| < |t| ==> t[|r|] == 0
  {
    if t == [] || t[0] == 0 then [] else [t[0]] + UpToNul(t[1..])
  }

  // ---- the C driver ----

  method StoreChars(s: array<byte>, at: nat, w: word)
    requires at + 2 <= s.Length
    modifies s
    ensures s[..at + 2] == old(s[..at]) + [w / 0x100, w % 0x100]
    ensures s[at + 2..] == old(s[at + 2..])
  {
    s[at] := w / 0x100;
    s[at + 1] := w % 0x100;
  }

  /** The first word of the rest joins what is there. */
  lemma OneMoreWord(t: seq<byte>, id: seq<word>, ofs: nat, n: nat)
    requires n > 0 && ofs + n <= |id|
    ensures t + Chars(id, ofs, n) == (t + [id[ofs] / 0x100, id[ofs] % 0x100]) + Chars(id, ofs + 1, n - 1)
  {
  }

  lemma NoMoreWords(t: seq<byte>, id: seq<word>, ofs: nat)
    requires ofs <= |id|
    ensures t + Chars(id, ofs, 0) == t
  {
  }

  /** A tail of a tail. */
  lemma TailOf(t: seq<byte>, rest: seq<byte>, from: nat, at: nat)
    requires from <= at <= |t| && rest == t[from..]
    ensures t[at..] == rest[at - from..]
  {
  }

  /** `ata_id_string`, for an even length. */
  method AtaIdString(id: seq<word>, s: array<byte>, ofs: nat, len: nat)
    requires len % 2 == 0 && len <= s.Length && ofs + len / 2 <= |id|
    modifies s
    ensures s[..len] == Chars(id, ofs, len / 2)
    ensures s[len..] == old(s[len..])
  {
    hide Chars;
    var at, from, left := 0, ofs, len;
    assert s[..at] + Chars(id, ofs, len / 2) == Chars(id, ofs, len / 2);
    while left > 0
      invariant at + left == len && left % 2 == 0 && left >= 0 && from == ofs + at / 2
      invariant s[..at] + Chars(id, from, left / 2) == Chars(id, ofs, len / 2)
      invariant s[len..] == old(s[len..])
      decreases left
    {
      ghost var rest := s[at + 2..];
      TailOf(s[..], rest, at + 2, len);
      OneMoreWord(s[..at], id, from, left / 2);
      StoreChars(s, at, id[from]);
      TailOf(s[..], rest, at + 2, len);
      at := at + 2;
      from := from + 1;
      left := left - 2;
    }
    NoMoreWords(s[..len], id, from);
  }

  /** `ata_strnlen`. */
  method AtaStrnlen(s: array<byte>, maxlen: nat) returns (n: nat)
    requires maxlen <= s.Length
    ensures n == |UpToNul(s[..maxlen])|
  {
    n := 0;
    while n < maxlen && s[n] != 0
      invariant n <= maxlen
      invariant n + |UpToNul(s[n..maxlen])| == |UpToNul(s[..maxlen])|
    {
      assert s[n..maxlen][1..] == s[n + 1..maxlen];
      n := n + 1;
    }
  }

  /** The scan back over trailing spaces, of both drivers. */
  method LastNonSpace(s: array<byte>, n: nat) returns (p: nat)
    requires n <= s.Length
    ensures p <= n && s[..p] == Stripped(s[..n])
  {
    p := n;
    while p > 0 && s[p - 1] == SPACE
      invariant p <= n && Stripped(s[..p]) == Stripped(s[..n])
    {
      assert s[..p][..p - 1] == s[..p - 1];
      p := p - 1;
    }
  }

  /** `ata_id_c_string`: forward to the first NUL, then back over the spaces. `len` counts the
      terminator, as the callers pass it. */
  method AtaIdCString(id: seq<word>, s: array<byte>, ofs: nat, len: nat)
    requires len % 2 == 1 && len <= s.Length && ofs + len / 2 <= |id|
    modifies s
    ensures Terminated(s[..len - 1], s[len - 1], Chars(id, ofs, len / 2), Stripped(UpToNul(Chars(id, ofs, len / 2))),
                       old(s[len - 1]))
    ensures s[len..] == old(s[len..])
  {
    hide Chars, UpToNul, Stripped;
    AtaIdString(id, s, ofs, len - 1);
    assert (len - 1) / 2 == len / 2 && s[len - 1] == old(s[len - 1]) by {
      assert s[len - 1] == s[len - 1..][0] && old(s[len - 1]) == old(s[len - 1..])[0];
    }
    ghost var t := s[..len - 1];
    var n := AtaStrnlen(s, len - 1);
    assert s[..n] == UpToNul(t);
    var p := LastNonSpace(s, n);
    s[p] := 0;
    assert s[..p] == t[..p];
    assert s[len..] == old(s[len..]);
  }

  /** The buffer holds the string and its terminator; the characters behind it are still there. */
  predicate Terminated(body: seq<byte>, last: byte, t: seq<byte>, r: seq<byte>, oldLast: byte) {
    && |r| <= |t| == |body|
    && body[..|r|] == r
    && (if |r| < |t| then body == t[|r| := 0] && last == oldLast else last == 0)
  }

  // ---- the Rust driver ----

  /** The copy loop of the Rust driver. */
  method CopyWords(id: seq<word>, s: array<byte>, ofs: nat, n: nat)
    requires 2 * n <= s.Length && ofs + n <= |id|
    modifies s
    ensures s[..2 * n] == Chars(id, ofs, n)
    ensures s[2 * n..] == old(s[2 * n..])
  {
    hide Chars;
    assert s[..0] + Chars(id, ofs, n) == Chars(id, ofs, n);
    for i := 0 to n
      invariant s[..2 * i] + Chars(id, ofs + i, n - i) == Chars(id, ofs, n)
      invariant s[2 * n..] == old(s[2 * n..])
    {
      ghost var rest := s[2 * i + 2..];
      TailOf(s[..], rest, 2 * i + 2, 2 * n);
      OneMoreWord(s[..2 * i], id, ofs + i, n - i);
      StoreChars(s, 2 * i, id[ofs + i]);
      TailOf(s[..], rest, 2 * i + 2, 2 * n);
    }
    NoMoreWords(s[..2 * n], id, ofs + n);
  }

  /** `ata_id_c_string` of the Rust driver: backward to the last character that is not a space. The
      length is that of the slice. */
  method AtaIdCStringReverse(id: seq<word>, s: array<byte>, ofs: nat)
    requires s.Length % 2 == 1 && ofs + s.Length / 2 <= |id|
    modifies s
    ensures Terminated(s[..s.Length - 1], s[s.Length - 1], Chars(id, ofs, s.Length / 2),
                       Stripped(Chars(id, ofs, s.Length / 2)), old(s[s.Length - 1]))
  {
    hide Stripped, Chars;
    var len := s.Length - 1;
    CopyWords(id, s, ofs, s.Length / 2);
    assert s[len] == old(s[len]) by {
      assert s[len] == s[2 * (s.Length / 2)..][0] && old(s[len]) == old(s[2 * (s.Length / 2)..])[0];
    }
    ghost var t := s[..len];
    var newLen := LastNonSpace(s, len);
    s[newLen] := 0;
    assert s[..newLen] == t[..newLen];
  }

  // ---- what the two make of a string ----

  /** They put the terminator in the same place exactly when the words hold no NUL. */
  lemma ScansAgreeIff(t: seq<byte>)
    ensures |Stripped(UpToNul(t))| == |Stripped(t)| <==> 0 !in t
    ensures 0 !in t ==> Stripped(UpToNul(t)) == Stripped(t)
  {
    var u := UpToNul(t);
    if |u| < |t| {
      StrippedKeeps(t, |u|);
    } else {
      assert u == t;
    }
  }

  /** A character that is not a space survives, with everything before it. */
  lemma {:induction false} StrippedKeeps(t: seq<byte>, i: nat)
    requires i < |t| && t[i] != SPACE
    ensures |Stripped(t)| > i
    decreases |t|
  {
    if t[|t| - 1] == SPACE { StrippedKeeps(t[..|t| - 1], i); }
  }

  function Spaces(n: nat): (t: seq<byte>)
    ensures |t| == n
  {
    seq(n, _ => 0x20)
  }

  /** How a disk packs characters into words. */
  function Pack(t: seq<byte>): (id: seq<word>)
    requires |t| % 2 == 0
    ensures |id| == |t| / 2
  {
    if t == [] then [] else [(t[0] as int) * 0x100 + (t[1] as int)] + Pack(t[2..])
  }

  lemma {:induction false} CharsOfPack(before: seq<word>, t: seq<byte>, after: seq<word>)
    requires |t| % 2 == 0
    ensures Chars(before + Pack(t) + after, |before|, |t| / 2) == t
    decreases |t|
  {
    if t != [] {
      var w: word := (t[0] as int) * 0x100 + (t[1] as int);
      assert before + Pack(t) + after == (before + [w]) + Pack(t[2..]) + after;
      CharsOfPack(before + [w], t[2..], after);
      assert t == [t[0], t[1]] + t[2..];
    }
  }

  lemma {:induction false} StrippedOfPadded(u: seq<byte>, n: nat)
    requires u == [] || u[|u| - 1] != SPACE
    ensures Stripped(u + Spaces(n)) == u
    decreases n
  {
    if n == 0 {
      assert u + Spaces(0) == u;
    } else {
      assert (u + Spaces(n))[..|u| + n - 1] == u + Spaces(n - 1);
      StrippedOfPadded(u, n - 1);
    }
  }

  /** Round trip: a string without NUL and without trailing spaces, padded and packed anywhere among
      the words, comes back unchanged from both drivers. */
  lemma StringRoundTrip(u: seq<byte>, n: nat, before: seq<word>, after: seq<word>)
    requires 0 !in u && (u == [] || u[|u| - 1] != SPACE) && (|u| + n) % 2 == 0
    ensures var t := Chars(before + Pack(u + Spaces(n)) + after, |before|, (|u| + n) / 2);
            Stripped(UpToNul(t)) == Stripped(t) == u
  {
    hide Chars, Pack, Stripped, UpToNul;
    var t := u + Spaces(n);
    CharsOfPack(before, t, after);
    ScansAgreeIff(t);
    StrippedOfPadded(u, n);
  }
}
