/** The application's memory: a byte array that the driver writes at computed addresses. */
module AppMemory {
  import opened OdbcTypes

  /** `m` with `d` written at address `a`; a range outside the memory is left alone. */
  function Put(m: seq<Byte>, a: int, d: seq<Byte>): (r: seq<Byte>)
    ensures |r| == |m|
    ensures forall x :: 0 <= x < |m| && !(a <= x < a + |d|) ==> r[x] == m[x]
    ensures 0 <= a && a + |d| <= |m| ==> r[a..a + |d|] == d
  {
    if 0 <= a && a + |d| <= |m| then m[..a] + d + m[a + |d|..] else m
  }

  function Pow256(k: nat): (r: int)
    ensures r >= 1
  {
    if k == 0 then 1 else 256 * Pow256(k - 1)
  }

  /** The `k` low bytes of `n`, least significant first. */
  function LittleEndian(n: int, k: nat): (r: seq<Byte>)
    ensures |r| == k
    decreases k
  {
    if k == 0 then [] else [n % 256] + LittleEndian(n / 256, k - 1)
  }

  function Unsigned(s: seq<Byte>): (r: int)
    ensures 0 <= r < Pow256(|s|)
  {
    if s == [] then 0 else s[0] + 256 * Unsigned(s[1..])
  }

  /** The two's complement reading of a word. */
  function Signed(s: seq<Byte>): int {
    var n := Unsigned(s);
    if 2 * n < Pow256(|s|) then n else n - Pow256(|s|)
  }

  lemma {:induction false} UnsignedOfLittleEndian(n: int, k: nat)
    ensures Unsigned(LittleEndian(n, k)) == n % Pow256(k)
    decreases k
  {
    if k > 0 {
      var rest := LittleEndian(n / 256, k - 1);
      UnsignedOfLittleEndian(n / 256, k - 1);
      assert LittleEndian(n, k)[1..] == rest;
      ModByProduct(n, Pow256(k - 1));
    }
  }

  lemma ModByProduct(n: int, q: int)
    requires q >= 1
    ensures n % 256 + 256 * ((n / 256) % q) == n % (256 * q)
  {
    var a, b := n / 256, n % 256;
    var c, d := a / q, a % q;
    assert n == 256 * (q * c + d) + b;
    assert n == (256 * q) * c + (256 * d + b);
    DivModUnique(n, 256 * q, c, 256 * d + b);
  }

  /** A larger factor gives a product larger by at least `m`. */
  lemma MulGrows(m: int, a: int, b: int)
    requires m >= 0 && a > b
    ensures m * a >= m * b + m
  {
    assert m * a == m * b + m * (a - b);
    assert m * (a - b) == m + m * (a - b - 1);
  }

  /** The quotient and the remainder are the only numbers with their shape. */
  lemma DivModUnique(n: int, m: int, c: int, r: int)
    requires m >= 1 && n == m * c + r && 0 <= r < m
    ensures n / m == c && n % m == r
  {
    var c', r' := n / m, n % m;
    assert n == m * c' + r';
    if c > c' {
      MulGrows(m, c, c');
      assert false;
    } else if c < c' {
      MulGrows(m, c', c);
      assert false;
    }
  }

  /** A signed word survives being stored and loaded. */
  lemma SignedOfLittleEndian(n: int, k: nat)
    requires k >= 1 && -Pow256(k) <= 2 * n < Pow256(k)
    ensures Signed(LittleEndian(n, k)) == n
  {
    UnsignedOfLittleEndian(n, k);
    var m := Pow256(k);
    if n >= 0 {
      DivModUnique(n, m, 0, n);
    } else {
      DivModUnique(n, m, -1, n + m);
    }
  }

  lemma WordSizes()
    ensures Pow256(1) == 256 && Pow256(2) == TWO_16 && Pow256(4) == TWO_32 && Pow256(8) == TWO_64
  {
    assert Pow256(1) == 256;
    assert Pow256(2) == 256 * Pow256(1);
    assert Pow256(3) == 256 * Pow256(2);
    assert Pow256(4) == 256 * Pow256(3);
    assert Pow256(5) == 256 * Pow256(4);
    assert Pow256(6) == 256 * Pow256(5);
    assert Pow256(7) == 256 * Pow256(6);
    assert Pow256(8) == 256 * Pow256(7);
  }

  /** memcpy into the application's memory. */
  method WriteBytes(mem: array<Byte>, a: nat, d: seq<Byte>)
    requires a + |d| <= mem.Length
    modifies mem
    ensures mem[..] == Put(old(mem[..]), a, d)
  {
    ghost var was := mem[..];
    for i := 0 to |d|
      invariant forall x :: 0 <= x < mem.Length ==>
        mem[x] == if a <= x < a + i then d[x - a] else was[x]
    {
      mem[a + i] := d[i];
    }
    assert mem[..] == was[..a] + d + was[a + |d|..];
  }
}
