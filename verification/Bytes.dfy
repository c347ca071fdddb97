/** Machine integers, their fixed-width little-endian forms, and windows of a byte sequence. */
module Bytes {
  type byte = b: int | 0 <= b < 0x100
  type u32 = n: int | 0 <= n < 0x1_0000_0000
  type u64 = n: int | 0 <= n < 0x1_0000_0000_0000_0000
  type i64 = n: int | -0x8000_0000_0000_0000 <= n < 0x8000_0000_0000_0000

  function Pow256(k: nat): (p: nat)
    ensures p > 0
  {
    if k == 0 then 1 else 256 * Pow256(k - 1)
  }

  lemma Widths()
    ensures Pow256(4) == 0x1_0000_0000
    ensures Pow256(8) == 0x1_0000_0000_0000_0000
  {
    assert Pow256(2) == 0x1_0000;
    assert Pow256(4) == 256 * (256 * Pow256(2));
    assert Pow256(6) == 256 * (256 * Pow256(4));
    assert Pow256(8) == 256 * (256 * Pow256(6));
  }

  /** The `k` low-order bytes of `n`, least significant first. */
  function Le(n: nat, k: nat): (s: seq<byte>)
    ensures |s| == k
    decreases k
  {
    if k == 0 then [] else [n % 256] + Le(n / 256, k - 1)
  }

  function FromLe(s: seq<byte>): (n: nat)
    ensures n < Pow256(|s|)
  {
    if s == [] then 0 else s[0] + 256 * FromLe(s[1..])
  }

  lemma {:induction false} FromLeOfLe(n: nat, k: nat)
    requires n < Pow256(k)
    ensures FromLe(Le(n, k)) == n
    decreases k
  {
    if k == 0 {
    } else {
      FromLeOfLe(n / 256, k - 1);
      assert Le(n, k)[1..] == Le(n / 256, k - 1);
    }
  }

  lemma {:induction false} LeOfFromLe(s: seq<byte>)
    ensures Le(FromLe(s), |s|) == s
  {
    if s == [] {
    } else {
      LeOfFromLe(s[1..]);
      var n := FromLe(s);
      assert n % 256 == s[0] && n / 256 == FromLe(s[1..]);
    }
  }

  /** The four bytes at `i` spell `n`, the lowest first. */
  predicate U32At(s: seq<byte>, i: nat, n: int) {
    var w: seq<int> := s;
    i + 4 <= |s| && n == w[i] + 0x100 * w[i + 1] + 0x1_0000 * w[i + 2] + 0x100_0000 * w[i + 3]
  }

  /** The eight bytes at `i` spell `n`, the lowest first. */
  predicate U64At(s: seq<byte>, i: nat, n: int) {
    var w: seq<int> := s;
    && i + 8 <= |s|
    && n == w[i] + 0x100 * w[i + 1] + 0x1_0000 * w[i + 2] + 0x100_0000 * w[i + 3]
            + 0x1_0000_0000 * w[i + 4] + 0x100_0000_0000 * w[i + 5]
            + 0x1_0000_0000_0000 * w[i + 6] + 0x100_0000_0000_0000 * w[i + 7]
  }

  lemma FromLeSpelled(s: seq<byte>)
    ensures |s| == 4 ==> U32At(s, 0, FromLe(s))
    ensures |s| == 8 ==> U64At(s, 0, FromLe(s))
  {
    if |s| == 4 {
      FromLeFour(s);
    } else if |s| == 8 {
      FromLeFour(s[4..]);
      assert s[1..][1..] == s[2..] && s[2..][1..] == s[3..] && s[3..][1..] == s[4..];
      assert FromLe(s[2..]) == s[2] + 0x100 * (s[3] + 0x100 * FromLe(s[4..]));
      assert FromLe(s) == s[0] + 0x100 * (s[1] + 0x100 * FromLe(s[2..]));
    }
  }

  lemma FromLeFour(s: seq<byte>)
    requires |s| == 4
    ensures U32At(s, 0, FromLe(s))
  {
    assert s[1..][1..] == s[2..] && s[2..][1..] == s[3..] && s[3..][1..] == [];
    assert FromLe(s[2..]) == s[2] + 0x100 * (s[3] + 0x100 * FromLe([]));
    assert FromLe(s) == s[0] + 0x100 * (s[1] + 0x100 * FromLe(s[2..]));
  }

  /** The bytes of a number are exactly those that spell it. */
  lemma LeSpelled(n: nat)
    ensures n < 0x1_0000_0000 ==> U32At(Le(n, 4), 0, n)
    ensures n < 0x1_0000_0000_0000_0000 ==> U64At(Le(n, 8), 0, n)
    ensures forall s: seq<byte> :: |s| == 4 && U32At(s, 0, n) ==> s == Le(n, 4)
    ensures forall s: seq<byte> :: |s| == 8 && U64At(s, 0, n) ==> s == Le(n, 8)
  {
    Widths();
    if n < 0x1_0000_0000 {
      FromLeSpelled(Le(n, 4));
      FromLeOfLe(n, 4);
    }
    if n < 0x1_0000_0000_0000_0000 {
      FromLeSpelled(Le(n, 8));
      FromLeOfLe(n, 8);
    }
    forall s: seq<byte> | (|s| == 4 && U32At(s, 0, n)) || (|s| == 8 && U64At(s, 0, n)) ensures s == Le(n, |s|) {
      FromLeSpelled(s);
      LeOfFromLe(s);
    }
  }

  /** Two's complement, as `i64::to_le_bytes` and `i64::from_le_bytes` see the word. */
  function ToTwos(i: i64): u64 {
    if i < 0 then i + 0x1_0000_0000_0000_0000 else i
  }

  function FromTwos(u: u64): (i: i64)
    ensures ToTwos(i) == u
  {
    if u >= 0x8000_0000_0000_0000 then u - 0x1_0000_0000_0000_0000 else u
  }

  /** The word is the number modulo 2^64. */
  lemma TwosIsModular(i: i64)
    ensures ToTwos(i) == i % 0x1_0000_0000_0000_0000 && FromTwos(ToTwos(i)) == i
  {
  }

  /** `e` occupies the positions of `s` that start at `i`. */
  predicate At(s: seq<byte>, i: nat, e: seq<byte>)
    decreases |e|
  {
    i + |e| <= |s| && (e == [] || (s[i] == e[0] && At(s, i + 1, e[1..])))
  }

  lemma {:induction false} AtWindow(s: seq<byte>, i: nat, e: seq<byte>)
    requires i + |e| <= |s|
    ensures At(s, i, e) <==> s[i..i + |e|] == e
    decreases |e|
  {
    if e == [] {
    } else {
      AtWindow(s, i + 1, e[1..]);
      assert s[i..i + |e|] == [s[i]] + s[i + 1..i + |e|];
      assert e == [e[0]] + e[1..];
    }
  }

  lemma {:induction false} AtConcat(s: seq<byte>, i: nat, a: seq<byte>, b: seq<byte>)
    requires At(s, i, a + b)
    ensures At(s, i, a) && At(s, i + |a|, b)
    decreases |a|
  {
    if a == [] {
      assert a + b == b;
    } else {
      assert (a + b)[1..] == a[1..] + b;
      AtConcat(s, i + 1, a[1..], b);
    }
  }

  /** `s` and `t` have the same first `n` bytes. */
  predicate AgreeUpTo(s: seq<byte>, t: seq<byte>, n: nat) {
    n <= |s| && n <= |t| && forall k :: 0 <= k < n ==> s[k] == t[k]
  }

  lemma AgreeLess(s: seq<byte>, t: seq<byte>, n: nat, m: nat)
    requires AgreeUpTo(s, t, n) && m <= n
    ensures AgreeUpTo(s, t, m)
  {
  }

  lemma AgreeWindow(s: seq<byte>, t: seq<byte>, n: nat, lo: nat, hi: nat)
    requires AgreeUpTo(s, t, n) && lo <= hi <= n
    ensures s[lo..hi] == t[lo..hi]
  {
  }
}
