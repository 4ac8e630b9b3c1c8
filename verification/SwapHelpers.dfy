/** The address swaps of common/rewrite_helpers.h, in place on a packet buffer. */
module SwapHelpers {
  import opened Bytes
  import opened InternetChecksum

  /** s with the n bytes at a and the n bytes at b exchanged. */
  function Exchanged(s: seq<byte>, a: nat, b: nat, n: nat): (t: seq<byte>)
    requires a + n <= b && b + n <= |s|
    ensures |t| == |s|
  {
    s[..a] + s[b..b + n] + s[a + n..b] + s[a..a + n] + s[b + n..]
  }

  lemma ExchangedAt(s: seq<byte>, a: nat, b: nat, n: nat, i: nat)
    requires a + n <= b && b + n <= |s| && i < |s|
    ensures Exchanged(s, a, b, n)[i] ==
              if a <= i < a + n then s[b + (i - a)] else if b <= i < b + n then s[a + (i - b)] else s[i]
  {
    var t := Exchanged(s, a, b, n);
    if i < a {
      assert t[i] == s[..a][i];
    } else if i < a + n {
      assert t[i] == s[b..b + n][i - a];
    } else if i < b {
      assert t[i] == s[a + n..b][i - a - n];
    } else if i < b + n {
      assert t[i] == s[a..a + n][i - b];
    } else {
      assert t[i] == s[b + n..][i - b - n];
    }
  }

  lemma ExchangedTwice(s: seq<byte>, a: nat, b: nat, n: nat)
    requires a + n <= b && b + n <= |s|
    ensures Exchanged(Exchanged(s, a, b, n), a, b, n) == s
  {
    var t := Exchanged(s, a, b, n);
    forall i | 0 <= i < |s| ensures Exchanged(t, a, b, n)[i] == s[i] {
      ExchangedAt(t, a, b, n, i);
      ExchangedAt(s, a, b, n, if a <= i < a + n then b + (i - a) else if b <= i < b + n then a + (i - b) else i);
    }
  }

  /** The five parts of whole that an exchange of the n bytes at a' and b' moves are those of s, with
      pre in front of the first and post behind the last. */
  predicate PartsInside(whole: seq<byte>, pre: seq<byte>, s: seq<byte>, post: seq<byte>,
                        a': nat, b': nat, a: nat, b: nat, n: nat)
  {
    && a + n <= b && b + n <= |s| && a' + n <= b' && b' + n <= |whole|
    && whole[..a'] == pre + s[..a] && whole[b'..b' + n] == s[b..b + n] && whole[a' + n..b'] == s[a + n..b]
    && whole[a'..a' + n] == s[a..a + n] && whole[b' + n..] == s[b + n..] + post
  }

  lemma ExchangedParts(whole: seq<byte>, pre: seq<byte>, s: seq<byte>, post: seq<byte>,
                       a': nat, b': nat, a: nat, b: nat, n: nat)
    requires PartsInside(whole, pre, s, post, a', b', a, b, n)
    ensures Exchanged(whole, a', b', n) == pre + Exchanged(s, a, b, n) + post
  {
    Regroup(pre, s[..a], s[b..b + n], s[a + n..b], s[a..a + n], s[b + n..], post);
  }

  lemma WholeHasParts(whole: seq<byte>, pre: seq<byte>, s: seq<byte>, post: seq<byte>,
                      a': nat, b': nat, a: nat, b: nat, n: nat)
    requires a + n <= b && b + n <= |s| && whole == pre + s + post && a' == |pre| + a && b' == |pre| + b
    ensures PartsInside(whole, pre, s, post, a', b', a, b, n)
  {
    InsideEnds(pre, s, post, a, b + n, a', b' + n);
    InsidePart(pre, s, post, b, b + n, b', b' + n);
    InsidePart(pre, s, post, a + n, b, a' + n, b');
    InsidePart(pre, s, post, a, a + n, a', a' + n);
  }

  /** Exchanging inside the middle part of a buffer leaves the outer parts alone. */
  lemma ExchangedInside(whole: seq<byte>, pre: seq<byte>, s: seq<byte>, post: seq<byte>,
                        a': nat, b': nat, a: nat, b: nat, n: nat)
    requires a + n <= b && b + n <= |s| && whole == pre + s + post && a' == |pre| + a && b' == |pre| + b
    ensures Exchanged(whole, a', b', n) == pre + Exchanged(s, a, b, n) + post
  {
    WholeHasParts(whole, pre, s, post, a', b', a, b, n);
    ExchangedParts(whole, pre, s, post, a', b', a, b, n);
  }

  /** The part of s from lo to hi lies from lo' to hi' in the whole. */
  lemma InsidePart(pre: seq<byte>, s: seq<byte>, post: seq<byte>, lo: nat, hi: nat, lo': nat, hi': nat)
    requires lo <= hi <= |s| && lo' == |pre| + lo && hi' == |pre| + hi
    ensures (pre + s + post)[lo'..hi'] == s[lo..hi]
  {
  }

  lemma InsideEnds(pre: seq<byte>, s: seq<byte>, post: seq<byte>, lo: nat, hi: nat, lo': nat, hi': nat)
    requires lo <= |s| && hi <= |s| && lo' == |pre| + lo && hi' == |pre| + hi
    ensures (pre + s + post)[..lo'] == pre + s[..lo]
    ensures (pre + s + post)[hi'..] == s[hi..] + post
  {
  }

  lemma Regroup(pre: seq<byte>, u: seq<byte>, v: seq<byte>, w: seq<byte>, x: seq<byte>, y: seq<byte>, post: seq<byte>)
    ensures (pre + u) + v + w + x + (y + post) == pre + (u + v + w + x + y) + post
  {
  }

  /** Exchanging neighbouring fields of even length inside a checksummed region changes no sum. */
  lemma ExchangeKeepsSum(h: Host, s: seq<byte>, a: nat, n: nat)
    requires a % 2 == 0 && n % 2 == 0 && a + 2 * n <= |s|
    ensures WordSum(h, Exchanged(s, a, a + n, n)) == WordSum(h, s)
  {
    WordSumExchange(h, s[..a], s[a..a + n], s[a + n..a + 2 * n], s[a + 2 * n..]);
    NeighboursExchanged(s, a, n);
  }

  lemma NeighboursExchanged(s: seq<byte>, a: nat, n: nat)
    requires a + 2 * n <= |s|
    ensures s == s[..a] + s[a..a + n] + s[a + n..a + 2 * n] + s[a + 2 * n..]
    ensures Exchanged(s, a, a + n, n) == s[..a] + s[a + n..a + 2 * n] + s[a..a + n] + s[a + 2 * n..]
  {
    assert s[a + n..a + n] == [];
  }

  /** The three memcpy calls through a temporary. */
  method SwapRanges(buf: array<byte>, a: nat, b: nat, n: nat)
    requires a + n <= b && b + n <= buf.Length
    modifies buf
    ensures buf[..] == Exchanged(old(buf[..]), a, b, n)
  {
    var tmp := buf[a..a + n];
    ghost var before := buf[..];
    Memcpy(buf, a, buf[b..b + n]);
    Memcpy(buf, b, tmp);
    CopiedTwice(before, a, b, n);
  }

  function Copied(s: seq<byte>, o: nat, src: seq<byte>): seq<byte>
    requires o + |src| <= |s|
  {
    s[..o] + src + s[o + |src|..]
  }

  /** memcpy of src into the buffer. */
  method Memcpy(buf: array<byte>, o: nat, src: seq<byte>)
    requires o + |src| <= buf.Length
    modifies buf
    ensures buf[..] == Copied(old(buf[..]), o, src)
  {
    forall i | 0 <= i < |src| {
      buf[o + i] := src[i];
    }
  }

  lemma CopiedTwice(s: seq<byte>, a: nat, b: nat, n: nat)
    requires a + n <= b && b + n <= |s|
    ensures Copied(Copied(s, a, s[b..b + n]), b, s[a..a + n]) == Exchanged(s, a, b, n)
  {
    var t := Copied(s, a, s[b..b + n]);
    assert t[..b] == s[..a] + s[b..b + n] + s[a + n..b] && t[b + n..] == s[b + n..];
  }

  method SwapSrcDstMac(buf: array<byte>, eth: nat)
    requires eth + 14 <= buf.Length
    modifies buf
    ensures buf[..] == Exchanged(old(buf[..]), eth, eth + 6, 6)
  {
    SwapRanges(buf, eth, eth + 6, 6);
  }

  method SwapSrcDstIpv6(buf: array<byte>, ip6h: nat)
    requires ip6h + 40 <= buf.Length
    modifies buf
    ensures buf[..] == Exchanged(old(buf[..]), ip6h + 8, ip6h + 24, 16)
  {
    SwapRanges(buf, ip6h + 8, ip6h + 24, 16);
  }

  method SwapSrcDstIpv4(buf: array<byte>, iph: nat)
    requires iph + 20 <= buf.Length
    modifies buf
    ensures buf[..] == Exchanged(old(buf[..]), iph + 12, iph + 16, 4)
  {
    SwapRanges(buf, iph + 12, iph + 16, 4);
  }
}
