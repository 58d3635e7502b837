/**
 * PHP's ordered array, as far as the Imap classes use it: an insertion-ordered
 * sequence of (key, value) entries with distinct keys, plus the "next free integer
 * index" that `$a[] = v` appends under. `unset($a[k])` removes the entry stored
 * under key `k`; it never renumbers the others and never lowers the counter.
 */
module PhpArray {
  import opened PhpString

  /** Bounds of PHP's (64-bit) integer type. */
  const LongMin: int := -0x8000_0000_0000_0000
  const LongMax: int := 0x7FFF_FFFF_FFFF_FFFF

  datatype Key = IntKey(i: int) | StrKey(s: string)

  /**
   * The key PHP uses for a string offset: a canonical decimal integer that fits
   * PHP's integer type becomes an integer key, every other string stays a string key.
   */
  function KeyOf(s: string): Key {
    if IsCanonicalInteger(s) && LongMin <= CanonicalValue(s) <= LongMax then
      IntKey(CanonicalValue(s))
    else
      StrKey(s)
  }

  /** Exactly the decimal forms of the integers in range become integer keys. */
  lemma KeyOfIntKey(s: string, i: int)
    ensures KeyOf(s) == IntKey(i) <==> s == IntToString(i) && LongMin <= i <= LongMax
  {
    IntToStringCanonical(i);
    if IsCanonicalInteger(s) {
      CanonicalIntegerIsIntToString(s);
    }
  }

  /** A string that does not start like a number ("ssl", "tls", ...) stays a string key. */
  lemma KeyOfNonNumeric(s: string)
    requires |s| > 0 && s[0] != '-' && !IsDigit(s[0])
    ensures KeyOf(s) == StrKey(s)
  {
  }

  datatype Entry<V> = Entry(key: Key, value: V)

  datatype Array<V> = Array(entries: seq<Entry<V>>, nextIndex: int)

  /** `array()`. */
  function Empty<V>(): Array<V> {
    Array([], 0)
  }

  /** `$a[] = v`: a new last entry under the next integer index. */
  function Append<V>(a: Array<V>, v: V): Array<V> {
    Array(a.entries + [Entry(IntKey(a.nextIndex), v)], a.nextIndex + 1)
  }

  function Without<V>(es: seq<Entry<V>>, k: Key): (r: seq<Entry<V>>)
    ensures |r| <= |es|
    ensures forall e :: e in r ==> e in es && e.key != k
  {
    if es == [] then []
    else if es[0].key == k then Without(es[1..], k)
    else [es[0]] + Without(es[1..], k)
  }

  /** `unset($a[k])`. */
  function Unset<V>(a: Array<V>, k: Key): Array<V> {
    Array(Without(a.entries, k), a.nextIndex)
  }

  predicate HasKey<V>(a: Array<V>, k: Key) {
    exists i :: 0 <= i < |a.entries| && a.entries[i].key == k
  }

  /** The values in insertion order: what `foreach ($a as $v)` visits. */
  function Values<V>(a: Array<V>): (vs: seq<V>)
    ensures |vs| == |a.entries|
    ensures forall i :: 0 <= i < |vs| ==> vs[i] == a.entries[i].value
  {
    seq(|a.entries|, i requires 0 <= i < |a.entries| => a.entries[i].value)
  }

  /** Distinct keys, and every integer key below the next free index. */
  ghost predicate WellFormed<V>(a: Array<V>) {
    && DistinctKeys(a.entries)
    && (forall i :: 0 <= i < |a.entries| && a.entries[i].key.IntKey? ==> a.entries[i].key.i < a.nextIndex)
  }

  /** Every key is an integer key: an array that was only ever appended to. */
  ghost predicate IsIntKeyed<V>(a: Array<V>) {
    forall i :: 0 <= i < |a.entries| ==> a.entries[i].key.IntKey?
  }

  lemma AppendWellFormed<V>(a: Array<V>, v: V)
    requires WellFormed(a)
    ensures WellFormed(Append(a, v))
    ensures IsIntKeyed(a) ==> IsIntKeyed(Append(a, v))
    ensures Values(Append(a, v)) == Values(a) + [v]
  {
  }

  lemma {:induction false} WithoutAbsent<V>(es: seq<Entry<V>>, k: Key)
    requires forall i :: 0 <= i < |es| ==> es[i].key != k
    ensures Without(es, k) == es
  {
    if es != [] {
      WithoutAbsent(es[1..], k);
    }
  }

  /** Unsetting a key the array does not hold changes nothing. */
  lemma UnsetAbsent<V>(a: Array<V>, k: Key)
    requires !HasKey(a, k)
    ensures Unset(a, k) == a
  {
    WithoutAbsent(a.entries, k);
  }

  /** An array that was only appended to holds no string key, so unsetting one is a no-op. */
  lemma UnsetStringKey<V>(a: Array<V>, k: Key)
    requires IsIntKeyed(a) && k.StrKey?
    ensures Unset(a, k) == a
  {
    UnsetAbsent(a, k);
  }

  lemma {:induction false} WithoutPresent<V>(es: seq<Entry<V>>, k: Key, j: nat)
    requires j < |es| && es[j].key == k
    requires forall i :: 0 <= i < |es| && i != j ==> es[i].key != k
    ensures Without(es, k) == es[..j] + es[j + 1..]
  {
    if j == 0 {
      WithoutAbsent(es[1..], k);
    } else {
      WithoutPresent(es[1..], k, j - 1);
      assert es[1..][..j - 1] == es[1..j];
      assert es[1..][j..] == es[j + 1..];
      assert es[..j] == [es[0]] + es[1..j];
    }
  }

  /** Unsetting a present key removes exactly its entry; the others keep their order. */
  lemma UnsetPresent<V>(a: Array<V>, k: Key, j: nat)
    requires WellFormed(a) && j < |a.entries| && a.entries[j].key == k
    ensures Unset(a, k).entries == a.entries[..j] + a.entries[j + 1..]
    ensures Values(Unset(a, k)) == Values(a)[..j] + Values(a)[j + 1..]
  {
    WithoutPresent(a.entries, k, j);
    assert Values(a)[..j] == Values(Array(a.entries[..j], 0));
    assert Values(a)[j + 1..] == Values(Array(a.entries[j + 1..], 0));
  }

  ghost predicate DistinctKeys<V>(es: seq<Entry<V>>) {
    forall i, j :: 0 <= i < j < |es| ==> es[i].key != es[j].key
  }

  lemma {:induction false} WithoutDistinct<V>(es: seq<Entry<V>>, k: Key)
    requires DistinctKeys(es)
    ensures DistinctKeys(Without(es, k))
  {
    if es != [] {
      WithoutDistinct(es[1..], k);
      if es[0].key != k {
        var r' := Without(es[1..], k);
        forall j | 0 <= j < |r'|
          ensures r'[j].key != es[0].key
        {
          assert r'[j] in r';
          var j' :| 0 <= j' < |es[1..]| && es[1..][j'] == r'[j];
          assert es[j' + 1] == r'[j];
        }
      }
    }
  }

  /** Unsetting keeps the array well formed and leaves no entry under the key. */
  lemma UnsetWellFormed<V>(a: Array<V>, k: Key)
    requires WellFormed(a)
    ensures WellFormed(Unset(a, k))
    ensures IsIntKeyed(a) ==> IsIntKeyed(Unset(a, k))
    ensures !HasKey(Unset(a, k), k)
  {
    var r := Unset(a, k);
    assert DistinctKeys(a.entries);
    WithoutDistinct(a.entries, k);
    forall i | 0 <= i < |r.entries|
      ensures r.entries[i] in a.entries && r.entries[i].key != k
    {
      assert r.entries[i] in r.entries;
    }
  }

  /** `array_slice($list, 0, $length)` on a list: a prefix, shortened from the end for a negative length. */
  function SliceFromStart<V>(s: seq<V>, length: int): (r: seq<V>)
    ensures r <= s
    ensures length >= 0 ==> |r| == if length < |s| then length else |s|
    ensures length < 0 ==> |r| == if |s| + length > 0 then |s| + length else 0
  {
    if length >= 0 then (if length < |s| then s[..length] else s)
    else (if |s| + length > 0 then s[..|s| + length] else [])
  }
}
