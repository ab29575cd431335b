/**
 * The deterministic identifier generator that the project tests install in
 * place of the library's random one: a counter that `Reset` sets to zero and
 * `Generate` increments before rendering it behind a fixed prefix.
 */
module LinearGuid {
  import opened Decimal

  datatype Option<T> = None | Some(value: T)

  /** The fixed sixteen characters every generated identifier starts with. */
  const Prefix: string := "CCCCCCCC00000000"

  /**
   * The identifier `Generate` returns when the counter has become n: it
   * starts with the prefix and decodes back to n.
   */
  function GuidFor(n: nat): (r: string)
    ensures |r| >= 24 && r[..16] == Prefix && r[16..] == Pad8(n)
    ensures GuidIndex(r) == Some(n)
  {
    var r := Prefix + Pad8(n);
    assert r[..16] == Prefix;
    assert r[16..] == Pad8(n);
    r
  }

  /**
   * Reads an identifier back to the counter value it was made from, or None
   * when the string is not one `GuidFor` can produce.
   */
  function GuidIndex(id: string): (r: Option<nat>)
    ensures r.Some? ==> |id| >= 24 && id[..16] == Prefix
  {
    if |id| >= 24 && id[..16] == Prefix && IsPad8(id[16..])
    then Some(Value(id[16..]))
    else None
  }

  /** Only identifiers decode: the decoder is an exact inverse. */
  lemma GuidIndexExact(id: string, n: nat)
    ensures GuidIndex(id) == Some(n) <==> id == GuidFor(n)
  {
    if GuidIndex(id) == Some(n) {
      Pad8OfValue(id[16..]);
      assert id == id[..16] + id[16..];
    }
  }

  /** Different counter values give different identifiers. */
  lemma GuidForInjective(m: nat, n: nat)
    ensures GuidFor(m) == GuidFor(n) <==> m == n
  {
    if GuidFor(m) == GuidFor(n) {
      assert GuidIndex(GuidFor(m)) == Some(m);
      assert GuidIndex(GuidFor(n)) == Some(n);
    }
  }

  /** An identifier is 24 characters long exactly while the counter is below 10^8. */
  lemma GuidForWidth(n: nat)
    ensures |GuidFor(n)| == 24 <==> n < 100_000_000
    ensures |GuidFor(n)| >= 24
  {
    Pad8Width(n);
  }

  /** A fixed-width identifier made of upper-case hexadecimal digits. */
  predicate IsHexToken(s: string) {
    |s| == 24 && forall i :: 0 <= i < |s| ==> s[i] in "0123456789ABCDEF"
  }

  /** A character of an identifier: 'C' or a decimal digit. */
  predicate IsGuidChar(c: char) {
    c == 'C' || IsDigit(c)
  }

  lemma GuidCharIsHex(c: char)
    requires IsGuidChar(c)
    ensures c in "0123456789ABCDEF"
  {
    if c != 'C' {
      var d := DigitValue(c);
      assert c == "0123456789ABCDEF"[d];
    }
  }

  lemma PrefixChars()
    ensures forall i :: 0 <= i < |Prefix| ==> IsGuidChar(Prefix[i])
  {
  }

  /** Every character is 'C' or a decimal digit; below 10^8 it is a hex token. */
  lemma GuidForAlphabet(n: nat)
    ensures forall i :: 0 <= i < |GuidFor(n)| ==> IsGuidChar(GuidFor(n)[i])
    ensures n < 100_000_000 ==> IsHexToken(GuidFor(n))
  {
    var id, p := GuidFor(n), Pad8(n);
    PrefixChars();
    forall i | 0 <= i < |id|
      ensures IsGuidChar(id[i])
    {
      if i < 16 {
        assert id[i] == Prefix[i];
      } else {
        assert id[i] == p[i - 16];
      }
    }
    forall i | 0 <= i < |id|
      ensures id[i] in "0123456789ABCDEF"
    {
      GuidCharIsHex(id[i]);
    }
    Pad8Width(n);
  }

  /** The identifier for a one-digit counter value. */
  lemma GuidForOneDigit(n: nat)
    requires n < 10
    ensures GuidFor(n) == Prefix + "0000000" + [DigitChar(n)]
  {
    var id := GuidFor(n);
    Pad8OneDigit(n);
    assert id == id[..16] + id[16..];
  }

  /** The first identifier after a reset, which the tests compare against. */
  lemma FirstGuid()
    ensures GuidFor(1) == "CCCCCCCC0000000000000001"
  {
    GuidForOneDigit(1);
    assert DigitChar(1) == '1';
  }

  /** The fifth identifier after a reset, which the tests compare against. */
  lemma FifthGuid()
    ensures GuidFor(5) == "CCCCCCCC0000000000000005"
  {
    GuidForOneDigit(5);
    assert DigitChar(5) == '5';
  }

  /** The identifiers returned by the first k calls of `Generate` after a reset. */
  ghost function Issued(k: nat): (r: seq<string>)
    ensures |r| == k
    ensures forall i :: 0 <= i < k ==> r[i] == GuidFor(i + 1)
  {
    if k == 0 then []
    else
      var before := Issued(k - 1);
      var r := before + [GuidFor(k)];
      assert forall i :: 0 <= i < k - 1 ==> r[i] == before[i];
      r
  }

  ghost predicate Distinct(s: seq<string>) {
    forall i, j :: 0 <= i < j < |s| ==> s[i] != s[j]
  }

  /** Strings that decode to pairwise different counter values are pairwise different. */
  lemma DistinctByIndex(s: seq<string>)
    requires forall i :: 0 <= i < |s| ==> GuidIndex(s[i]) == Some(i + 1)
    ensures Distinct(s)
  {
    forall i, j | 0 <= i < j < |s|
      ensures s[i] != s[j]
    {
      assert GuidIndex(s[i]) != GuidIndex(s[j]);
    }
  }

  /** Between two resets no identifier is returned twice. */
  lemma IssuedDistinct(k: nat)
    ensures Distinct(Issued(k))
  {
    var s := Issued(k);
    forall i | 0 <= i < k
      ensures GuidIndex(s[i]) == Some(i + 1)
    {
      var id := GuidFor(i + 1);
      assert s[i] == id;
    }
    DistinctByIndex(s);
  }

  /**
   * One generator. The source keeps the counter in a static field shared by
   * the whole process; here it is the field of one object. `issued` records
   * the identifiers returned since the last reset.
   */
  class LinearGuidGenerator {
    var counter: nat
    ghost var issued: seq<string>

    ghost predicate Valid()
      reads this
    {
      issued == Issued(counter)
    }

    /** The static field starts at zero. */
    constructor ()
      ensures Valid() && counter == 0 && issued == []
    {
      counter := 0;
      issued := [];
    }

    /**
     * Sets the counter back to zero, whatever it was; a second reset
     * therefore leaves the same state as one.
     */
    method Reset()
      modifies this
      ensures Valid() && counter == 0 && issued == []
    {
      counter := 0;
      issued := [];
    }

    /**
     * Increments the counter and returns the prefix followed by the new
     * counter value in "D8" form; the result differs from every identifier
     * returned since the last reset.
     */
    method Generate() returns (id: string)
      requires Valid()
      modifies this
      ensures Valid()
      ensures counter == old(counter) + 1
      ensures id == GuidFor(counter) && GuidIndex(id) == Some(counter)
      ensures issued == old(issued) + [id]
      ensures id !in old(issued) && Distinct(issued)
    {
      counter := counter + 1;
      id := Prefix + Pad8(counter);
      issued := issued + [id];
      assert id == GuidFor(counter);
      IssuedDistinct(counter);
    }
  }
}
