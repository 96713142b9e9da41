/**
 Password generator of the password manager.

 A generated password is built from three groups of randomly chosen
 characters (8 to 10 ASCII letters, 2 to 4 symbols, 2 to 4 decimal digits)
 that are concatenated and then shuffled. The random source is not part of
 the model: every random outcome is an explicit input.
   - `choice(alphabet)` repeated `randint(lo, hi)` times becomes a sequence of
     indices into the alphabet; its length is the outcome of `randint`.
   - `shuffle` becomes a permutation `order` of the positions: the character
     at position i of the result is the one at position order[i] of the pool.
 */
module PasswordGenerator {

  /** The characters from `lo` to `hi` inclusive, in code-point order. */
  function CharRange(lo: char, hi: char): (chars: string)
    requires lo <= hi < 128 as char
    ensures |chars| == hi as int - lo as int + 1
    ensures forall c :: c in chars <==> lo <= c <= hi
  {
    var chars := seq(hi as int - lo as int + 1, i requires 0 <= i <= hi as int - lo as int => (lo as int + i) as char);
    forall c | lo <= c <= hi ensures c in chars {
      assert chars[c as int - lo as int] == c;
    }
    chars
  }

  const Lowercase: string := CharRange('a', 'z')
  const Uppercase: string := CharRange('A', 'Z')
  /** The 52 ASCII letters, lower case first. */
  const Letters: string := Lowercase + Uppercase
  const Digits: string := CharRange('0', '9')
  /** The nine symbols a password may contain. */
  const Symbols: string := "!#$%&()*+"

  /** Every draw is a valid position in an alphabet of `size` characters. */
  predicate ValidDraws(draws: seq<int>, size: nat) {
    forall i :: 0 <= i < |draws| ==> 0 <= draws[i] < size
  }

  /** The characters picked from `alphabet` by repeated `choice`, one per draw. */
  function Pick(alphabet: string, draws: seq<int>): (picked: string)
    requires ValidDraws(draws, |alphabet|)
    ensures |picked| == |draws|
    ensures forall c :: c in picked ==> c in alphabet
  {
    seq(|draws|, i requires 0 <= i < |draws| => alphabet[draws[i]])
  }

  /** `order` lists each position 0 .. n-1 exactly once. */
  predicate IsPermutation(order: seq<int>, n: nat) {
    && |order| == n
    && (forall i :: 0 <= i < n ==> 0 <= order[i] < n)
    && (forall i, j :: 0 <= i < j < n ==> order[i] != order[j])
  }

  /** The shuffled list: position i receives the character at position order[i]. */
  function Permute(s: string, order: seq<int>): (shuffled: string)
    requires IsPermutation(order, |s|)
    ensures |shuffled| == |s|
  {
    seq(|s|, i requires 0 <= i < |s| => s[order[i]])
  }

  /** Shuffling by a permutation keeps every character and its multiplicity. */
  lemma {:induction false} PermutePreservesMultiset(s: string, order: seq<int>)
    requires IsPermutation(order, |s|)
    ensures multiset(Permute(s, order)) == multiset(s)
    decreases |s|
  {
    if |s| > 0 {
      var n := |s|;
      var k := order[n - 1];
      var rest := s[..k] + s[k + 1..];
      // The positions of `rest` are those of `s` with k taken out.
      var order' := seq(n - 1, i requires 0 <= i < n - 1 => if order[i] < k then order[i] else order[i] - 1);
      assert IsPermutation(order', n - 1) by {
        forall i | 0 <= i < n - 1 ensures 0 <= order'[i] < n - 1 {
          assert order[i] != order[n - 1];
        }
      }
      PermutePreservesMultiset(rest, order');
      forall i | 0 <= i < n - 1 ensures Permute(s, order)[i] == Permute(rest, order')[i] {
        assert order[i] != order[n - 1];
      }
      assert Permute(s, order) == Permute(rest, order') + [s[k]];
      assert s == s[..k] + [s[k]] + s[k + 1..];
    }
  }

  /** The number of characters of `s` that belong to `alphabet`. */
  function Count(s: string, alphabet: string): nat {
    if s == [] then 0
    else Count(s[..|s| - 1], alphabet) + (if s[|s| - 1] in alphabet then 1 else 0)
  }

  lemma {:induction false} CountConcat(s: string, t: string, alphabet: string)
    ensures Count(s + t, alphabet) == Count(s, alphabet) + Count(t, alphabet)
    decreases |t|
  {
    if t != [] {
      assert (s + t)[..|s + t| - 1] == s + t[..|t| - 1];
      CountConcat(s, t[..|t| - 1], alphabet);
    } else {
      assert s + t == s;
    }
  }

  /** The count depends only on which characters occur and how often. */
  lemma {:induction false} CountRespectsMultiset(s: string, t: string, alphabet: string)
    requires multiset(s) == multiset(t)
    ensures Count(s, alphabet) == Count(t, alphabet)
    decreases |s|
  {
    if s == [] {
      assert |t| == |multiset(t)| == 0;
    } else {
      var n := |s|;
      var x := s[n - 1];
      assert x in multiset(s);
      assert x in t;
      var j :| 0 <= j < |t| && t[j] == x;
      var rest := t[..j] + t[j + 1..];
      assert t == t[..j] + [x] + t[j + 1..];
      assert s == s[..n - 1] + [x];
      assert multiset(t) == multiset(t[..j]) + multiset{x} + multiset(t[j + 1..]);
      assert multiset(s) == multiset(s[..n - 1]) + multiset{x};
      assert multiset(rest) == multiset(t[..j]) + multiset(t[j + 1..]);
      assert multiset(rest) == multiset(t) - multiset{x};
      assert multiset(s[..n - 1]) == multiset(s) - multiset{x};
      CountRespectsMultiset(s[..n - 1], rest, alphabet);
      CountConcat(t[..j], [x], alphabet);
      CountConcat(t[..j] + [x], t[j + 1..], alphabet);
      CountConcat(t[..j], t[j + 1..], alphabet);
    }
  }

  lemma {:induction false} CountAll(s: string, alphabet: string)
    requires forall i :: 0 <= i < |s| ==> s[i] in alphabet
    ensures Count(s, alphabet) == |s|
    decreases |s|
  {
    if s != [] {
      CountAll(s[..|s| - 1], alphabet);
    }
  }

  lemma {:induction false} CountNone(s: string, alphabet: string)
    requires forall i :: 0 <= i < |s| ==> s[i] !in alphabet
    ensures Count(s, alphabet) == 0
    decreases |s|
  {
    if s != [] {
      CountNone(s[..|s| - 1], alphabet);
    }
  }

  /** No character belongs to two of the three alphabets. */
  lemma AlphabetsDisjoint()
    ensures forall c :: c in Letters ==> c !in Symbols && c !in Digits
    ensures forall c :: c in Symbols ==> c !in Digits
  {
    // Every symbol lies below '0', every digit below 'A'.
    assert forall c :: c in Symbols ==> c <= '+';
  }

  /**
   One run of the generator, given the outcomes of its random choices:
   `letterDraws`, `symbolDraws` and `digitDraws` are the indices chosen in
   each alphabet (their lengths are the sizes drawn by `randint`) and `order`
   is the permutation applied by the shuffle.
   */
  function Generate(letterDraws: seq<int>, symbolDraws: seq<int>, digitDraws: seq<int>, order: seq<int>): (password: string)
    requires 8 <= |letterDraws| <= 10 && ValidDraws(letterDraws, |Letters|)
    requires 2 <= |symbolDraws| <= 4 && ValidDraws(symbolDraws, |Symbols|)
    requires 2 <= |digitDraws| <= 4 && ValidDraws(digitDraws, |Digits|)
    requires IsPermutation(order, |letterDraws| + |symbolDraws| + |digitDraws|)
    ensures 12 <= |password| <= 18
    ensures forall c :: c in password ==> c in Letters || c in Symbols || c in Digits
    ensures multiset(password) == multiset(Pick(Letters, letterDraws) + Pick(Symbols, symbolDraws) + Pick(Digits, digitDraws))
    ensures Count(password, Letters) == |letterDraws|
    ensures Count(password, Symbols) == |symbolDraws|
    ensures Count(password, Digits) == |digitDraws|
  {
    var letters := Pick(Letters, letterDraws);
    var symbols := Pick(Symbols, symbolDraws);
    var digits := Pick(Digits, digitDraws);
    var pool := letters + symbols + digits;
    PermutePreservesMultiset(pool, order);
    GroupCounts(letters, symbols, digits);
    CountRespectsMultiset(Permute(pool, order), pool, Letters);
    CountRespectsMultiset(Permute(pool, order), pool, Symbols);
    CountRespectsMultiset(Permute(pool, order), pool, Digits);
    assert forall c :: c in Permute(pool, order) ==> c in multiset(pool);
    Permute(pool, order)
  }

  /** In the unshuffled pool, each class is counted exactly by its own group. */
  lemma GroupCounts(letters: string, symbols: string, digits: string)
    requires forall c :: c in letters ==> c in Letters
    requires forall c :: c in symbols ==> c in Symbols
    requires forall c :: c in digits ==> c in Digits
    ensures Count(letters + symbols + digits, Letters) == |letters|
    ensures Count(letters + symbols + digits, Symbols) == |symbols|
    ensures Count(letters + symbols + digits, Digits) == |digits|
  {
    AlphabetsDisjoint();
    CountConcat(letters + symbols, digits, Letters);
    CountConcat(letters, symbols, Letters);
    CountConcat(letters + symbols, digits, Symbols);
    CountConcat(letters, symbols, Symbols);
    CountConcat(letters + symbols, digits, Digits);
    CountConcat(letters, symbols, Digits);
    CountAll(letters, Letters);
    CountNone(symbols, Letters);
    CountNone(digits, Letters);
    CountNone(letters, Symbols);
    CountAll(symbols, Symbols);
    CountNone(digits, Symbols);
    CountNone(letters, Digits);
    CountNone(symbols, Digits);
    CountAll(digits, Digits);
  }
}
