/** The version number of a certificate: the djb2 hash, in 32 bits, of its alternative names joined by spaces. */
module CertVersion {
  const WORD := 0x1_0000_0000
  const SEED := 5381
  /** The inverse of 33 modulo 2^32. */
  const INVERSE := 1041204193

  function Join(names: seq<string>): string {
    if names == [] then "" else if |names| == 1 then names[0] else names[0] + " " + Join(names[1..])
  }

  /** One step of the fold: shift left by five, add the old hash and the character, all wrapping. */
  function Step(hash: nat, c: char): (r: nat)
    ensures r < WORD
    ensures r == (33 * hash + c as int) % WORD
  {
    (((hash * 32) % WORD + hash) % WORD + c as int) % WORD
  }

  function Fold(hash: nat, s: string): nat
    decreases |s|
  {
    if s == [] then hash else Fold(Step(hash, s[0]), s[1..])
  }

  function CreateCertVersion(names: seq<string>): nat {
    Fold(SEED, Join(names))
  }

  // ---------- what it computes ----------

  function Pow33(n: nat): nat {
    if n == 0 then 1 else 33 * Pow33(n - 1)
  }

  /** The characters as coefficients, the last one constant. */
  function Polynomial(s: string): nat {
    if s == [] then 0 else s[0] as int * Pow33(|s| - 1) + Polynomial(s[1..])
  }

  lemma ModMulAdd(a: int, k: int, b: int)
    ensures ((a % WORD) * k + b) % WORD == (a * k + b) % WORD
  {
    var q := a / WORD;
    assert a == q * WORD + a % WORD;
    assert a * k + b == (a % WORD) * k + b + (q * k) * WORD by {
      assert (q * WORD) * k == (q * k) * WORD;
    }
    ModAddMultiple((a % WORD) * k + b, q * k);
  }

  lemma ModAddMultiple(x: int, m: int)
    ensures (x + m * WORD) % WORD == x % WORD
  {
    var q := x / WORD;
    var r := x % WORD;
    assert x + m * WORD == (q + m) * WORD + r;
    ModUnique(x + m * WORD, q + m, r);
  }

  lemma ModUnique(x: int, q: int, r: int)
    requires x == q * WORD + r && 0 <= r < WORD
    ensures x % WORD == r
  {
    var d := x / WORD - q;
    assert d * WORD == r - x % WORD;
    assert d == 0;
  }

  lemma LeadingTerm(hash: nat, c: char, power: nat, rest: nat)
    ensures (Step(hash, c) * power + rest) % WORD == (hash * (33 * power) + (c as int * power + rest)) % WORD
  {
    var v := c as int;
    ModMulAdd(33 * hash + v, power, rest);
    Distribute(hash, v, power);
  }

  lemma Distribute(hash: nat, v: nat, power: nat)
    ensures (33 * hash + v) * power == hash * (33 * power) + v * power
  {
  }

  /** The fold is the polynomial in 33 with the seed as leading coefficient, modulo 2^32. */
  lemma {:induction false} FoldIsPolynomial(hash: nat, s: string)
    requires hash < WORD
    ensures Fold(hash, s) == (hash * Pow33(|s|) + Polynomial(s)) % WORD
    decreases |s|
  {
    if s != [] {
      var p := Pow33(|s| - 1);
      FoldIsPolynomial(Step(hash, s[0]), s[1..]);
      LeadingTerm(hash, s[0], p, Polynomial(s[1..]));
    }
  }

  /** The names are joined by single spaces. */
  lemma {:induction false} JoinsWithSpaces(names: seq<string>, last: string)
    ensures Join([]) == "" && Join([last]) == last
    ensures names != [] ==> Join(names + [last]) == Join(names) + (" " + last)
  {
    if |names| == 1 {
      assert names + [last] == [names[0], last] && [names[0], last][1..] == [last];
      assert names[0] + " " + last == names[0] + (" " + last);
    } else if names != [] {
      JoinsWithSpaces(names[1..], last);
      assert (names + [last])[1..] == names[1..] + [last];
      assert names[0] + " " + (Join(names[1..]) + (" " + last)) == (names[0] + " " + Join(names[1..])) + (" " + last);
    }
  }

  lemma VersionIsPolynomial(names: seq<string>)
    ensures CreateCertVersion(names) == (5381 * Pow33(|Join(names)|) + Polynomial(Join(names))) % 0x1_0000_0000
  {
    FoldIsPolynomial(SEED, Join(names));
  }

  // ---------- sensitivity ----------

  function Unstep(hash: nat, c: char): (r: nat)
    ensures r < WORD
  {
    ((hash - c as int) * INVERSE) % WORD
  }

  /** For each character the step is a bijection on 32-bit words. */
  lemma StepBijective(hash: nat, c: char)
    requires hash < WORD
    ensures Unstep(Step(hash, c), c) == hash
    ensures Step(Unstep(hash, c), c) == hash
  {
    var v := c as int;
    // undoing a step
    var x := 33 * hash + v;
    var q := x / WORD;
    assert Step(hash, c) - v == 33 * hash - q * WORD;
    assert (33 * hash - q * WORD) * INVERSE == hash * (33 * INVERSE) - (q * INVERSE) * WORD;
    assert 33 * INVERSE == 8 * WORD + 1;
    assert hash * (8 * WORD + 1) == (8 * hash) * WORD + hash;
    ModUnique((Step(hash, c) - v) * INVERSE, 8 * hash - q * INVERSE, hash);
    // redoing it
    var y := (hash - v) * INVERSE;
    var p := y / WORD;
    assert 33 * (y - p * WORD) + v == (hash - v) * (8 * WORD + 1) - 33 * p * WORD + v;
    assert (hash - v) * (8 * WORD + 1) == 8 * (hash - v) * WORD + (hash - v);
    ModUnique(33 * Unstep(hash, c) + v, 8 * (hash - v) - 33 * p, hash);
  }

  /** What comes after two texts does not hide a difference between their hashes, nor make one. */
  lemma {:induction false} CommonEnding(g: nat, h: nat, s: string)
    requires g < WORD && h < WORD
    ensures Fold(g, s) == Fold(h, s) <==> g == h
    decreases |s|
  {
    if s != [] {
      StepBijective(g, s[0]);
      StepBijective(h, s[0]);
      CommonEnding(Step(g, s[0]), Step(h, s[0]), s[1..]);
    }
  }

  lemma {:induction false} FoldConcat(hash: nat, s: string, t: string)
    ensures Fold(hash, s + t) == Fold(Fold(hash, s), t)
    decreases |s|
  {
    if s == [] {
      assert s + t == t;
    } else {
      assert (s + t)[1..] == s[1..] + t;
      FoldConcat(Step(hash, s[0]), s[1..], t);
    }
  }

  lemma {:induction false} FoldInRange(hash: nat, s: string)
    requires hash < WORD
    ensures Fold(hash, s) < WORD
    decreases |s|
  {
    if s != [] {
      FoldInRange(Step(hash, s[0]), s[1..]);
    }
  }

  lemma CharIsSmall(c: char)
    ensures 0 <= c as int < 0x110000
  {
  }

  lemma StepTellsCharsApart(hash: nat, c: char, d: char)
    requires Step(hash, c) == Step(hash, d)
    ensures c == d
  {
    CharIsSmall(c);
    CharIsSmall(d);
    var x := 33 * hash + c as int;
    var y := 33 * hash + d as int;
    var k := x / WORD - y / WORD;
    assert x - y == k * WORD;
    assert k == 0;
  }

  /** Texts that differ in exactly one character have different hashes. */
  lemma OneCharacterDiffers(hash: nat, before: string, c: char, d: char, after: string)
    requires hash < WORD && c != d
    ensures Fold(hash, before + [c] + after) != Fold(hash, before + [d] + after)
  {
    FoldInRange(hash, before);
    var h := Fold(hash, before);
    FoldConcat(hash, before, [c]);
    FoldConcat(hash, before, [d]);
    FoldConcat(hash, before + [c], after);
    FoldConcat(hash, before + [d], after);
    assert Fold(h, [c]) == Step(h, c) && Fold(h, [d]) == Step(h, d);
    if Step(h, c) == Step(h, d) {
      StepTellsCharsApart(h, c, d);
    }
    CommonEnding(Step(h, c), Step(h, d), after);
  }

  predicate DifferOnlyAt(s: string, t: string, i: nat) {
    |s| == |t| && i < |s| && s[i] != t[i] && s[..i] == t[..i] && s[i + 1..] == t[i + 1..]
  }

  /** Two lists of names whose joined texts differ in exactly one character get different versions. */
  lemma VersionsDiffer(names: seq<string>, names': seq<string>, i: nat)
    requires DifferOnlyAt(Join(names), Join(names'), i)
    ensures CreateCertVersion(names) != CreateCertVersion(names')
  {
    var s, t := Join(names), Join(names');
    assert s == s[..i] + [s[i]] + s[i + 1..];
    assert t == s[..i] + [t[i]] + s[i + 1..];
    OneCharacterDiffers(SEED, s[..i], s[i], t[i], s[i + 1..]);
  }

  lemma FoldOne(hash: nat, c: char)
    ensures Fold(hash, [c]) == Step(hash, c)
  {
  }

  lemma FoldPair(hash: nat, c: char, d: char)
    ensures Fold(hash, [c, d]) == (1089 * hash + 33 * c as int + d as int) % WORD
  {
    var x := 33 * hash + c as int;
    assert [c, d] == [c] + [d];
    FoldConcat(hash, [c], [d]);
    FoldOne(hash, c);
    FoldOne(Step(hash, c), d);
    ModMulAdd(x, 33, d as int);
  }

  /** Two neighbouring characters can change without changing the hash, exactly when the second makes up
      for the first. */
  lemma PairCollidesExactly(hash: nat, before: string, c: char, d: char, c': char, d': char, after: string)
    requires hash < WORD
    ensures Fold(hash, before + [c, d] + after) == Fold(hash, before + [c', d'] + after)
            <==> 33 * (c as int - c' as int) == d' as int - d as int
  {
    FoldInRange(hash, before);
    var h := Fold(hash, before);
    FoldConcat(hash, before, [c, d]);
    FoldConcat(hash, before, [c', d']);
    FoldConcat(hash, before + [c, d], after);
    FoldConcat(hash, before + [c', d'], after);
    FoldInRange(h, [c, d]);
    FoldInRange(h, [c', d']);
    CommonEnding(Fold(h, [c, d]), Fold(h, [c', d']), after);
    FoldPair(h, c, d);
    FoldPair(h, c', d');
    PairArithmetic(1089 * h, c, d, c', d');
  }

  lemma PairArithmetic(base: int, c: char, d: char, c': char, d': char)
    ensures (base + 33 * c as int + d as int) % WORD == (base + 33 * c' as int + d' as int) % WORD
            <==> 33 * (c as int - c' as int) == d' as int - d as int
  {
    CharIsSmall(c);
    CharIsSmall(d);
    CharIsSmall(c');
    CharIsSmall(d');
    var x := base + 33 * c as int + d as int;
    var y := base + 33 * c' as int + d' as int;
    var k := x / WORD - y / WORD;
    if x % WORD == y % WORD {
      assert x - y == k * WORD;
      assert k == 0;
    }
  }

  /** So two different names can have the same version, and so can a name and the two it is made of. */
  lemma VersionsCollide()
    ensures CreateCertVersion(["ab"]) == CreateCertVersion(["bA"])
    ensures CreateCertVersion(["a b"]) == CreateCertVersion(["a", "b"])
  {
    PairCollidesExactly(SEED, "", 'a', 'b', 'b', 'A', "");
    assert "" + ['a', 'b'] + "" == "ab" && "" + ['b', 'A'] + "" == "bA";
    assert ["a", "b"][1..] == ["b"];
    assert "a" + " " + "b" == "a b";
  }
}
