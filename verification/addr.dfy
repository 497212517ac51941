/**
 * IPv4 socket addresses and their `Display` text, the key the client's
 * connection table is indexed by (`addr.to_string()`).
 */
module SocketAddrs {
  import opened Decimal

  type Octet = x: nat | x < 256
  type Port = x: nat | x < 65536

  datatype SocketAddr = SocketAddr(a: Octet, b: Octet, c: Octet, d: Octet, port: Port)

  /** `a.b.c.d:port`, each number in shortest decimal form. */
  function Key(s: SocketAddr): string {
    Show(s.a) + ("." + (Show(s.b) + ("." + (Show(s.c) + ("." + (Show(s.d) + (":" + Show(s.port))))))))
  }

  /** A numeral followed by a separator splits in one way only. */
  lemma SplitNumeral(x: string, t: string, y: string, u: string)
    requires IsCanonical(x) && IsCanonical(y)
    requires t != [] && !IsDigit(t[0]) && u != [] && !IsDigit(u[0])
    requires x + t == y + u
    ensures x == y && t == u
  {
    var s := x + t;
    assert forall i :: 0 <= i < |x| ==> IsDigit(s[i]);
    assert !IsDigit(s[|x|]);
    assert forall i :: 0 <= i < |y| ==> IsDigit(s[i]);
    assert !IsDigit(s[|y|]);
    assert |x| == |y|;
    assert x == (x + t)[..|x|] && y == (y + u)[..|y|];
    assert t == (x + t)[|x|..] && u == (y + u)[|y|..];
  }

  /** Each number is read back from the text after the separator before it. */
  lemma PeelNumeral(m: nat, t: string, n: nat, u: string)
    requires t != [] && !IsDigit(t[0]) && u != [] && !IsDigit(u[0])
    requires Show(m) + t == Show(n) + u
    ensures m == n && t == u
  {
    SplitNumeral(Show(m), t, Show(n), u);
    ShowInjective(m, n);
  }

  /** Distinct addresses have distinct keys, so the table holds one entry per address. */
  lemma KeyInjective(s: SocketAddr, s': SocketAddr)
    requires Key(s) == Key(s')
    ensures s == s'
  {
    var t4, u4 := ":" + Show(s.port), ":" + Show(s'.port);
    var t3, u3 := "." + (Show(s.d) + t4), "." + (Show(s'.d) + u4);
    var t2, u2 := "." + (Show(s.c) + t3), "." + (Show(s'.c) + u3);
    var t1, u1 := "." + (Show(s.b) + t2), "." + (Show(s'.b) + u2);
    PeelNumeral(s.a, t1, s'.a, u1);
    assert t1[1..] == Show(s.b) + t2 && u1[1..] == Show(s'.b) + u2;
    PeelNumeral(s.b, t2, s'.b, u2);
    assert t2[1..] == Show(s.c) + t3 && u2[1..] == Show(s'.c) + u3;
    PeelNumeral(s.c, t3, s'.c, u3);
    assert t3[1..] == Show(s.d) + t4 && u3[1..] == Show(s'.d) + u4;
    PeelNumeral(s.d, t4, s'.d, u4);
    assert t4[1..] == Show(s.port) && u4[1..] == Show(s'.port);
    ShowInjective(s.port, s'.port);
  }

  lemma KeyDistinct(s: SocketAddr, s': SocketAddr)
    requires s != s'
    ensures Key(s) != Key(s')
  {
    if Key(s) == Key(s') {
      KeyInjective(s, s');
    }
  }
}
