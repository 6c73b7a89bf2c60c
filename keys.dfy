/** Key columns and the polyalphabetic decryption of slippery.c.

    A key is stored, as in the C program, in a `char[MAXKEYLEN][26]`
    array, here an `array2<int>` whose row r is the substitution alphabet
    of cipher position r: row[k] is the ciphertext letter for the k-th
    plaintext letter. `random_swap` and `randomize` change one row; since
    a row of an `array2` cannot be passed on its own, they receive the
    array and the row index. */
module Keys {
  import opened Letters

  /** MAXKEYLEN: the number of rows of every key array. */
  const MaxKeyLen: int := 100

  /** The shape of pk, ck and bestk. */
  predicate IsKeyArray(k: array2<int>) {
    k.Length0 == MaxKeyLen && k.Length1 == AlphabetSize
  }

  /** Row r of a key array, as a sequence. */
  ghost function Row(k: array2<int>, r: int): (s: seq<int>)
    reads k
    requires IsKeyArray(k) && 0 <= r < MaxKeyLen
    ensures |s| == AlphabetSize && forall j :: 0 <= j < AlphabetSize ==> s[j] == k[r, j]
  {
    seq(AlphabetSize, j requires 0 <= j < AlphabetSize reads k => k[r, j])
  }

  /** The first keylen rows of a key array: the key in use. */
  ghost function Key(k: array2<int>, keylen: int): (key: seq<seq<int>>)
    reads k
    requires IsKeyArray(k) && 0 <= keylen <= MaxKeyLen
    ensures |key| == keylen && forall r :: 0 <= r < keylen ==> key[r] == Row(k, r)
  {
    seq(keylen, r requires 0 <= r < keylen reads k => Row(k, r))
  }

  /** Every column of the key is a permutation of A-Z. */
  predicate IsKey(key: seq<seq<int>>) {
    forall r :: 0 <= r < |key| ==> IsColumn(key[r])
  }

  predicate Shaped(key: seq<seq<int>>) {
    forall r :: 0 <= r < |key| ==> |key[r]| == AlphabetSize
  }

  /** The index of the first occurrence of x in s, or -1 when x does not
      occur in s. */
  function IndexOf(x: int, s: seq<int>): (r: int)
    ensures -1 <= r < |s|
    ensures 0 <= r ==> s[r] == x && x !in s[..r]
    ensures r == -1 <==> x !in s
  {
    if s == [] then -1
    else if s[0] == x then 0
    else
      var r := IndexOf(x, s[1..]);
      if r < 0 then -1
      else
        assert s[..r + 1] == [s[0]] + s[1..][..r];
        r + 1
  }

  /** `position(c, s)` over a key row: a linear scan of the 26 entries.
      The C function takes strlen of the row, which is not terminated; the
      scan ends inside the row whenever c occurs in it, which is the only
      case decrypt relies on. */
  method Position(c: int, s: array2<int>, row: int) returns (r: int)
    requires IsKeyArray(s) && 0 <= row < MaxKeyLen
    ensures r == IndexOf(c, Row(s, row))
  {
    ghost var col := Row(s, row);
    var i := 0;
    while i < AlphabetSize
      invariant 0 <= i <= AlphabetSize
      invariant c !in col[..i]
    {
      if c == s[row, i] {
        assert col[..i + 1] == col[..i] + [c];
        return i;
      }
      assert col[..i + 1] == col[..i] + [col[i]];
      i := i + 1;
    }
    assert col[..i] == col;
    r := -1;
  }

  /** Every ciphertext letter occurs in the column that deciphers it, so
      `position` never returns -1 inside `decrypt`. */
  predicate Decipherable(c: seq<int>, key: seq<seq<int>>)
    requires |key| > 0
  {
    forall i :: 0 <= i < |c| ==> c[i] in key[i % |key|]
  }

  /** The plaintext that `decrypt` writes: letter i is the alphabet letter
      at the rank of c[i] in column i mod keylen. */
  function Decryption(c: seq<int>, key: seq<seq<int>>): (p: seq<int>)
    requires |key| > 0 && Shaped(key) && Decipherable(c, key)
    ensures |p| == |c| && AllLetters(p)
  {
    seq(|c|, i requires 0 <= i < |c| => Alphabet()[IndexOf(c[i], key[i % |key|])])
  }

  /** Encryption with the same key: plaintext letter of rank k in position
      i becomes column (i mod keylen) entry k. */
  function Encryption(p: seq<int>, key: seq<seq<int>>): (c: seq<int>)
    requires |key| > 0 && Shaped(key) && AllLetters(p)
    ensures |c| == |p|
  {
    seq(|p|, i requires 0 <= i < |p| => key[i % |key|][p[i] - LetterA])
  }

  /** Re-encrypting a decryption gives back the ciphertext. */
  lemma DecryptThenEncrypt(c: seq<int>, key: seq<seq<int>>)
    requires |key| > 0 && Shaped(key) && Decipherable(c, key)
    ensures Encryption(Decryption(c, key), key) == c
  {
    var p := Decryption(c, key);
    forall i | 0 <= i < |c| ensures Encryption(p, key)[i] == c[i] {
      var col := key[i % |key|];
      assert p[i] - LetterA == IndexOf(c[i], col);
    }
  }

  /** Decrypting an encryption gives back the plaintext, because the
      columns have no repeated letter. */
  lemma EncryptThenDecrypt(p: seq<int>, key: seq<seq<int>>)
    requires |key| > 0 && IsKey(key) && AllLetters(p)
    ensures Shaped(key) && Decipherable(Encryption(p, key), key)
    ensures Decryption(Encryption(p, key), key) == p
  {
    var c := Encryption(p, key);
    forall i | 0 <= i < |p| ensures c[i] in key[i % |key|] && Alphabet()[IndexOf(c[i], key[i % |key|])] == p[i] {
      var col := key[i % |key|];
      var k := p[i] - LetterA;
      assert col[k] == c[i];
      var r := IndexOf(c[i], col);
      assert col[r] == col[k];
    }
  }

  /** A key made of permutation columns deciphers every text of letters. */
  lemma ColumnsDecipher(c: seq<int>, key: seq<seq<int>>)
    requires |key| > 0 && IsKey(key) && AllLetters(c)
    ensures Shaped(key) && Decipherable(c, key)
  {
    forall i | 0 <= i < |c| ensures c[i] in key[i % |key|] {
      ColumnHasEveryLetter(key[i % |key|], c[i]);
    }
  }

  /** `decrypt(c, p, s, keylen)`: writes the plaintext and its terminating
      NUL into the buffer p. */
  method Decrypt(c: seq<int>, p: array<int>, s: array2<int>, keylen: int)
    requires IsKeyArray(s) && 0 < keylen <= MaxKeyLen
    requires |c| < p.Length
    requires Shaped(Key(s, keylen)) && Decipherable(c, Key(s, keylen))
    modifies p
    ensures p[..|c|] == Decryption(c, Key(s, keylen))
    ensures p[|c|] == 0
    ensures forall m :: |c| < m < p.Length ==> p[m] == old(p[m])
  {
    ghost var key := Key(s, keylen);
    var length := |c|;
    p[length] := 0;
    var i := 0;
    while i < length
      invariant 0 <= i <= length
      invariant p[length] == 0
      invariant forall m :: 0 <= m < i ==> p[m] == Decryption(c, key)[m]
      invariant forall m :: length < m < p.Length ==> p[m] == old(p[m])
    {
      var r := Position(c[i], s, i % keylen);
      p[i] := Alphabet()[r];
      i := i + 1;
    }
  }

  /** Column s with the entries at i and j exchanged. */
  function Swapped(s: seq<int>, i: int, j: int): (t: seq<int>)
    requires 0 <= i < |s| && 0 <= j < |s|
    ensures |t| == |s|
  {
    s[i := s[j]][j := s[i]]
  }

  /** A swap keeps a column a permutation of A-Z and keeps its letters. */
  lemma SwapKeepsColumn(s: seq<int>, i: int, j: int)
    requires IsColumn(s) && 0 <= i < |s| && 0 <= j < |s|
    ensures IsColumn(Swapped(s, i, j))
    ensures multiset(Swapped(s, i, j)) == multiset(s)
  {
    var t := Swapped(s, i, j);
    forall a, b | 0 <= a < b < |t| ensures t[a] != t[b] {
      var a' := if a == i then j else if a == j then i else a;
      var b' := if b == i then j else if b == j then i else b;
      assert t[a] == s[a'] && t[b] == s[b'] && a' != b';
    }
  }

  /** `random_swap(s)`: the two random indices are the parameters i and
      j; the source redraws j until it differs from i. */
  method RandomSwap(s: array2<int>, row: int, i: int, j: int)
    requires IsKeyArray(s) && 0 <= row < MaxKeyLen
    requires 0 <= i < AlphabetSize && 0 <= j < AlphabetSize && i != j
    modifies s
    ensures Row(s, row) == Swapped(old(Row(s, row)), i, j)
    ensures forall r, m :: 0 <= r < MaxKeyLen && r != row && 0 <= m < AlphabetSize ==> s[r, m] == old(s[r, m])
  {
    var temp := s[row, i];
    s[row, i] := s[row, j];
    s[row, j] := temp;
  }

  /** A legal sequence of slot choices for `randomize`: letter m goes into
      slots[m], and every choice lands on a slot still unfilled, i.e. the
      choices are pairwise different. */
  predicate IsLayout(slots: seq<int>) {
    |slots| == AlphabetSize && Distinct(slots) &&
    forall m :: 0 <= m < AlphabetSize ==> 0 <= slots[m] < AlphabetSize
  }

  /** A column that holds letter m at slots[m], for every letter m. */
  predicate LaidOut(col: seq<int>, slots: seq<int>) {
    |col| == AlphabetSize && IsLayout(slots) &&
    forall m :: 0 <= m < AlphabetSize ==> col[slots[m]] == Alphabet()[m]
  }

  /** Distinct choices among 26 slots reach every slot: the letter that
      lands in slot q. */
  lemma SlotOwner(slots: seq<int>, q: int) returns (m: int)
    requires IsLayout(slots) && 0 <= q < AlphabetSize
    ensures 0 <= m < AlphabetSize && slots[m] == q
  {
    DistinctValues(slots);
    RangeSize(AlphabetSize);
    assert Values(slots) <= Range(AlphabetSize);
    FullSubset(Values(slots), Range(AlphabetSize));
    assert q in Values(slots);
    m := IndexOf(q, slots);
  }

  /** `randomize(s)`: the rejection loop's accepted draw for letter m is
      slots[m]. The row ends as a permutation of A-Z with letter m at
      slots[m]. */
  method Randomize(s: array2<int>, row: int, slots: seq<int>)
    requires IsKeyArray(s) && 0 <= row < MaxKeyLen && IsLayout(slots)
    modifies s
    ensures IsColumn(Row(s, row))
    ensures forall m :: 0 <= m < AlphabetSize ==> s[row, slots[m]] == Alphabet()[m]
    ensures forall r, m :: 0 <= r < MaxKeyLen && r != row && 0 <= m < AlphabetSize ==> s[r, m] == old(s[r, m])
  {
    var i := 0;
    while i < AlphabetSize
      invariant 0 <= i <= AlphabetSize
      invariant forall m :: 0 <= m < i ==> s[row, m] == Unfilled
      invariant forall r, m :: 0 <= r < MaxKeyLen && r != row && 0 <= m < AlphabetSize ==> s[r, m] == old(s[r, m])
    {
      s[row, i] := Unfilled;
      i := i + 1;
    }
    i := 0;
    while i < AlphabetSize
      invariant 0 <= i <= AlphabetSize
      invariant forall m :: 0 <= m < i ==> s[row, slots[m]] == Alphabet()[m]
      invariant forall q :: 0 <= q < AlphabetSize && q !in slots[..i] ==> s[row, q] == Unfilled
      invariant forall r, m :: 0 <= r < MaxKeyLen && r != row && 0 <= m < AlphabetSize ==> s[r, m] == old(s[r, m])
    {
      var j := slots[i];
      assert s[row, j] == Unfilled;
      s[row, j] := Alphabet()[i];
      assert slots[..i + 1] == slots[..i] + [j];
      i := i + 1;
    }
    assert slots[..i] == slots;
    ghost var col := Row(s, row);
    forall q | 0 <= q < AlphabetSize ensures IsLetter(col[q]) {
      var m := SlotOwner(slots, q);
    }
    forall a, b | 0 <= a < b < AlphabetSize ensures col[a] != col[b] {
      var ma := SlotOwner(slots, a);
      var mb := SlotOwner(slots, b);
    }
  }

  /** `copy_keys(source, target, keylen)`. */
  method CopyKeys(source: array2<int>, target: array2<int>, keylen: int)
    requires IsKeyArray(source) && IsKeyArray(target) && 0 <= keylen <= MaxKeyLen
    requires source != target
    modifies target
    ensures Key(target, keylen) == Key(source, keylen)
    ensures forall r, m :: keylen <= r < MaxKeyLen && 0 <= m < AlphabetSize ==> target[r, m] == old(target[r, m])
  {
    var i := 0;
    while i < keylen
      invariant 0 <= i <= keylen
      invariant forall r, m :: 0 <= r < i && 0 <= m < AlphabetSize ==> target[r, m] == source[r, m]
      invariant forall r, m :: i <= r < MaxKeyLen && 0 <= m < AlphabetSize ==> target[r, m] == old(target[r, m])
    {
      var j := 0;
      while j < AlphabetSize
        invariant 0 <= j <= AlphabetSize
        invariant forall r, m :: 0 <= r < i && 0 <= m < AlphabetSize ==> target[r, m] == source[r, m]
        invariant forall m :: 0 <= m < j ==> target[i, m] == source[i, m]
        invariant forall r, m :: (i < r < MaxKeyLen || (r == i && j <= m)) && 0 <= m < AlphabetSize ==> target[r, m] == old(target[r, m])
      {
        target[i, j] := source[i, j];
        j := j + 1;
      }
      i := i + 1;
    }
    assert forall r :: 0 <= r < keylen ==> Row(target, r) == Row(source, r);
  }
}
