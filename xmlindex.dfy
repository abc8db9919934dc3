/**
 * The CT-e number index built at the start of `processar` (src/.gui.py):
 * every ".xml" name carrying a valid key is filed under the key's CT-e
 * number with its leading zeros stripped. A later name with the same
 * number replaces an earlier one.
 */
module XmlIndex {
  import opened Wrappers
  import opened Text
  import opened FiscalKey

  /** The index entry of a valid key: its nine-digit number without leading zeros. */
  function IndexKey(key: string): string
    requires IsCteKey(key)
  {
    StripLeadingZeros(key[25..34])
  }

  /** What one name of the XML listing adds to the index. */
  function IndexStep(index: map<string, string>, name: string): map<string, string>
  {
    if !EndsWith(Lower(name), ".xml") then index
    else
      match KeyFromFileName(name)
      case None => index
      case Some(key) =>
        if !IsCteKey(key) then index
        else
          match NumberOfKey(Some(key))
          case None => index
          case Some(number) => if number == "" then index else index[StripLeadingZeros(number) := key]
  }

  /** The index after the first names of the listing, in order. */
  function IndexOfListing(names: seq<string>): map<string, string>
  {
    if names == [] then map[] else IndexStep(IndexOfListing(names[..|names| - 1]), names[|names| - 1])
  }

  /** The indexing loop over the listing of the XML folder. */
  method BuildIndex(names: seq<string>) returns (index: map<string, string>)
    ensures index == IndexOfListing(names)
  {
    index := map[];
    var k := 0;
    while k < |names|
      invariant 0 <= k <= |names|
      invariant index == IndexOfListing(names[..k])
    {
      var name := names[k];
      assert names[..k + 1][..k] == names[..k];
      if EndsWith(Lower(name), ".xml") {
        var key := KeyFromFileName(name);
        if key.Some? && IsCteKey(key.value) {
          var number := NumberOfKey(key);
          if number.Some? && number.value != "" {
            index := index[StripLeadingZeros(number.value) := key.value];
          }
        }
      }
      k := k + 1;
    }
    assert names[..k] == names;
  }

  /** The XML name a key was indexed from: a ".xml" name whose key it is. */
  predicate IndexedFrom(name: string, key: string)
  {
    EndsWith(Lower(name), ".xml") && KeyFromFileName(name) == Some(key) && IsCteKey(key)
  }

  /**
   * Every entry is a valid key, filed under its own stripped number, and
   * taken from a ".xml" name of the listing that contains it.
   */
  lemma {:induction false} IndexEntriesValid(names: seq<string>)
    ensures forall n :: n in IndexOfListing(names) ==>
      IsCteKey(IndexOfListing(names)[n]) && n == IndexKey(IndexOfListing(names)[n])
      && exists j :: 0 <= j < |names| && IndexedFrom(names[j], IndexOfListing(names)[n])
    decreases |names|
  {
    if names != [] {
      var prefix := names[..|names| - 1];
      IndexEntriesValid(prefix);
      forall j | 0 <= j < |prefix| ensures names[j] == prefix[j] { }
      var last := names[|names| - 1];
      var key := KeyFromFileName(last);
      if key.Some? && IsCteKey(key.value) {
        NumberOfValidKey(key.value);
      }
    }
  }

  /** Every ".xml" name with a valid key is indexed under its key's stripped number. */
  lemma {:induction false} IndexComplete(names: seq<string>, j: nat, key: string)
    requires j < |names| && IndexedFrom(names[j], key)
    ensures IndexKey(key) in IndexOfListing(names)
    decreases |names|
  {
    NumberOfValidKey(key);
    if j < |names| - 1 {
      var prefix := names[..|names| - 1];
      assert prefix[j] == names[j];
      IndexComplete(prefix, j, key);
    }
  }

  /** The last name of the listing filed under an entry is the one it holds. */
  lemma {:induction false} IndexLastWins(names: seq<string>, j: nat, key: string)
    requires j < |names| && IndexedFrom(names[j], key)
    requires forall i, k :: j < i < |names| && IndexedFrom(names[i], k) ==> IndexKey(k) != IndexKey(key)
    ensures IndexKey(key) in IndexOfListing(names) && IndexOfListing(names)[IndexKey(key)] == key
    decreases |names|
  {
    NumberOfValidKey(key);
    if j < |names| - 1 {
      var prefix := names[..|names| - 1];
      assert prefix[j] == names[j];
      forall i, k | j < i < |prefix| && IndexedFrom(prefix[i], k) ensures IndexKey(k) != IndexKey(key) {
        assert prefix[i] == names[i];
      }
      IndexLastWins(prefix, j, key);
      var last := names[|names| - 1];
      var lk := KeyFromFileName(last);
      if lk.Some? && IsCteKey(lk.value) && EndsWith(Lower(last), ".xml") {
        NumberOfValidKey(lk.value);
        assert IndexedFrom(names[|names| - 1], lk.value);
        assert IndexKey(lk.value) != IndexKey(key);
        assert IndexOfListing(names) == IndexOfListing(prefix)[IndexKey(lk.value) := lk.value];
      }
    }
  }

  /** Entry names are digit strings without a leading zero. */
  lemma IndexKeyShape(key: string)
    requires IsCteKey(key)
    ensures AllDigits(IndexKey(key)) && (IndexKey(key) == "" || IndexKey(key)[0] != '0')
  {
    var number := key[25..34];
    StripLeadingZerosShape(number);
  }

  lemma {:induction false} StripLeadingZerosShape(s: string)
    requires AllDigits(s)
    ensures AllDigits(StripLeadingZeros(s))
    ensures StripLeadingZeros(s) == "" || StripLeadingZeros(s)[0] != '0'
    decreases |s|
  {
    if s != [] && s[0] == '0' {
      StripLeadingZerosShape(s[1..]);
    }
  }

  /**
   * A CT-e number `n` looked up as `str(int(n))` finds the entry of a key
   * exactly when `n` is positive and equals the value of the key's nine
   * digits; a key whose number is all zeros is filed under "" and never found.
   */
  lemma LookupMatchesNumber(key: string, n: int)
    requires IsCteKey(key)
    ensures IntToString(n) == IndexKey(key) <==> n > 0 && n == DigitsValue(key[25..34])
  {
    var number := key[25..34];
    StripLeadingZerosIsNumeral(number);
    IndexKeyShape(key);
    if n > 0 && IntToString(n) == IndexKey(key) {
      assert DigitsValue(number) > 0;
    }
  }
}
