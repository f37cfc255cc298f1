/** The hash of a name. */
module DaHash {

  /** A character. */
  type Char = c: bv32 | c < 256

  /** Rotate left by 7, 14, 21 and 28 bits. */
  function Rol7(h: bv32): bv32 { (h << 7) | (h >> 25) }

  function Rol14(h: bv32): bv32 { (h << 14) | (h >> 18) }

  function Rol21(h: bv32): bv32 { (h << 21) | (h >> 11) }

  function Rol28(h: bv32): bv32 { (h << 28) | (h >> 4) }

  /** One character: rotate by 7 bits and put it in. */
  function Mix(h: bv32, c: Char): bv32 {
    c ^ Rol7(h)
  }

  /** The hash character by character. */
  function HashFrom(h: bv32, name: seq<Char>): bv32
    decreases |name|
  {
    if name == [] then h else HashFrom(Mix(h, name[0]), name[1..])
  }

  function HashOf(name: seq<Char>): nat {
    HashFrom(0, name) as nat
  }

  lemma {:induction false} HashConcat(h: bv32, a: seq<Char>, b: seq<Char>)
    ensures HashFrom(h, a + b) == HashFrom(HashFrom(h, a), b)
    decreases |a|
  {
    if a == [] {
      assert a + b == b;
    } else {
      assert (a + b)[1..] == a[1..] + b;
      HashConcat(Mix(h, a[0]), a[1..], b);
    }
  }

  function Two(h: bv32, a: Char, b: Char): bv32 { (a << 7) ^ b ^ Rol14(h) }

  function Three(h: bv32, a: Char, b: Char, c: Char): bv32 { (a << 14) ^ (b << 7) ^ c ^ Rol21(h) }

  function Four(h: bv32, a: Char, b: Char, c: Char, d: Char): bv32 { (a << 21) ^ (b << 14) ^ (c << 7) ^ d ^ Rol28(h) }

  /** Two, three and four characters at once are as many one after the other. */
  lemma TwoAtOnce(h: bv32, a: Char, b: Char)
    ensures Mix(Mix(h, a), b) == Two(h, a, b)
  {
  }

  lemma ThreeAtOnce(h: bv32, a: Char, b: Char, c: Char)
    ensures Mix(Mix(Mix(h, a), b), c) == Three(h, a, b, c)
  {
  }

  lemma FourAtOnce(h: bv32, a: Char, b: Char, c: Char, d: Char)
    ensures Mix(Mix(Mix(Mix(h, a), b), c), d) == Four(h, a, b, c, d)
  {
  }

  lemma HashNext(h: bv32, s: seq<Char>)
    ensures s != [] ==> HashFrom(h, s) == HashFrom(Mix(h, s[0]), s[1..])
    ensures |s| == 1 ==> HashFrom(h, s) == Mix(h, s[0])
  {
    if |s| == 1 {
      assert s[1..] == [];
    }
  }

  lemma HashFew(h: bv32, s: seq<Char>)
    ensures |s| == 1 ==> HashFrom(h, s) == Mix(h, s[0])
    ensures |s| == 2 ==> HashFrom(h, s) == Mix(Mix(h, s[0]), s[1])
    ensures |s| == 3 ==> HashFrom(h, s) == Mix(Mix(Mix(h, s[0]), s[1]), s[2])
    ensures |s| == 4 ==> HashFrom(h, s) == Mix(Mix(Mix(Mix(h, s[0]), s[1]), s[2]), s[3])
  {
    hide Mix, HashFrom;
    HashNext(h, s);
    if |s| > 1 {
      HashNext(Mix(h, s[0]), s[1..]);
    }
    if |s| > 2 {
      HashNext(Mix(Mix(h, s[0]), s[1]), s[1..][1..]);
    }
    if |s| > 3 {
      HashNext(Mix(Mix(Mix(h, s[0]), s[1]), s[2]), s[1..][1..][1..]);
    }
    if |s| == 4 {
      assert s[1..][1..] == s[2..] && s[2..][1..] == s[3..] && s[3..][1..] == [];
    } else if |s| == 3 {
      assert s[1..][1..] == s[2..] && s[2..][1..] == [];
    }
  }

  /** Hash four characters at a time as long as there are, then the rest. */
  method HashName(name: seq<Char>) returns (hash: bv32)
    ensures hash == HashFrom(0, name)
  {
    hide HashFrom, Mix, Two, Three, Four;
    hash := 0;
    var i := 0;
    HashNone(name);
    while |name| - i >= 4
      invariant 0 <= i <= |name| && hash == HashFrom(0, name[..i])
    {
      HashFew(hash, name[i..i + 4]);
      FourAtOnce(hash, name[i], name[i + 1], name[i + 2], name[i + 3]);
      HashConcat(0, name[..i], name[i..i + 4]);
      assert name[..i + 4] == name[..i] + name[i..i + 4];
      hash := Four(hash, name[i], name[i + 1], name[i + 2], name[i + 3]);
      i := i + 4;
    }
    HashConcat(0, name[..i], name[i..]);
    assert name == name[..i] + name[i..];
    HashFew(hash, name[i..]);
    match |name| - i {
      case 3 =>
        ThreeAtOnce(hash, name[i], name[i + 1], name[i + 2]);
        hash := Three(hash, name[i], name[i + 1], name[i + 2]);
      case 2 =>
        TwoAtOnce(hash, name[i], name[i + 1]);
        hash := Two(hash, name[i], name[i + 1]);
      case 1 =>
        hash := Mix(hash, name[i]);
      case _ =>
        HashNone(name[i..]);
    }
  }

  lemma HashNone(name: seq<Char>)
    ensures HashFrom(0, name[..0]) == 0
    ensures name == [] ==> forall h :: HashFrom(h, name) == h
  {
  }
}
