/**
 * CT-e access keys ("chave de acesso"): the validity test, the key found in
 * an XML file name, the CT-e number inside a key, and the key read from a
 * page's text or barcode (src/xml_utils.py, src/rateio.py).
 *
 * Layout of a key: 44 decimal digits; the model code `57` at positions 20
 * and 21; the nine-digit CT-e number at positions 25 to 33.
 */
module FiscalKey {
  import opened Wrappers
  import opened Text

  /** `chave_cte`: 44 digits with the model code "57" at positions 20 and 21. */
  predicate IsCteKey(s: string)
  {
    |s| == 44 && AllDigits(s) && s[20..22] == "57"
  }

  // ---------------------------------------------------------------------
  // Key in an XML file name: re.search(r"(\d{44})", name)
  // ---------------------------------------------------------------------

  /** 44 digits start at position `i` of `s`. */
  predicate DigitRunAt(s: string, i: nat)
  {
    i + 44 <= |s| && AllDigits(s[i..i + 44])
  }

  /** The leftmost position at or after `from` where 44 digits start. */
  function FirstDigitRun(s: string, from: nat): (r: Option<nat>)
    ensures r.Some? ==> from <= r.value && DigitRunAt(s, r.value)
    ensures r.Some? ==> forall j :: from <= j < r.value ==> !DigitRunAt(s, j)
    ensures r.None? ==> forall j :: from <= j ==> !DigitRunAt(s, j)
    decreases |s| - from
  {
    if from + 44 > |s| then None
    else if DigitRunAt(s, from) then Some(from)
    else FirstDigitRun(s, from + 1)
  }

  /**
   * `extract_chave_from_xml_filename`: the first 44 consecutive digits of the
   * name, or `None`. The model code is not checked here.
   */
  function KeyFromFileName(name: string): (r: Option<string>)
    ensures r.Some? ==> |r.value| == 44 && AllDigits(r.value)
  {
    match FirstDigitRun(name, 0)
    case None => None
    case Some(i) => Some(name[i..i + 44])
  }

  /** The key of a name such as "CTe<key>.xml" or "<key>-procCTe.xml": no digit comes before it. */
  lemma KeyAfterDigitFreePrefix(prefix: string, key: string, suffix: string)
    requires forall i :: 0 <= i < |prefix| ==> !IsDigit(prefix[i])
    requires |key| == 44 && AllDigits(key)
    ensures KeyFromFileName(prefix + key + suffix) == Some(key)
  {
    var s := prefix + key + suffix;
    assert s[|prefix|..|prefix| + 44] == key;
    assert DigitRunAt(s, |prefix|);
    forall j | 0 <= j < |prefix| ensures !DigitRunAt(s, j) {
      assert s[j..j + 44][0] == prefix[j];
    }
  }

  /** A run of 44 digits is extracted even when it is not a CT-e key: no "57" check. */
  lemma FileNameKeyNotValidated()
    ensures var zeros := seq(44, _ => '0');
      KeyFromFileName(zeros + ".xml") == Some(zeros) && !IsCteKey(zeros)
  {
    var zeros := seq(44, _ => '0');
    KeyAfterDigitFreePrefix("", zeros, ".xml");
    assert "" + zeros + ".xml" == zeros + ".xml";
    assert zeros[20..22][0] == '0';
  }

  // ---------------------------------------------------------------------
  // The CT-e number: chave[25:34]
  // ---------------------------------------------------------------------

  /** Python's `s[a:b]` for `0 <= a <= b`: the bounds are clamped to the length. */
  function Slice(s: string, a: nat, b: nat): (r: string)
    requires a <= b
    ensures |r| <= b - a
  {
    if a >= |s| then [] else if b >= |s| then s[a..] else s[a..b]
  }

  /** `extract_cte_number_from_chave`: `key[25:34]` for a non-empty key, else `None`. */
  function NumberOfKey(key: Option<string>): (r: Option<string>)
    ensures r.Some? <==> key.Some? && key.value != ""
    ensures r.Some? ==> |r.value| <= 9
  {
    if key.None? || key.value == "" then None else Some(Slice(key.value, 25, 34))
  }

  /** For a valid key the number is exactly the nine digits at positions 25 to 33. */
  lemma NumberOfValidKey(key: string)
    requires IsCteKey(key)
    ensures NumberOfKey(Some(key)) == Some(key[25..34])
    ensures |key[25..34]| == 9 && AllDigits(key[25..34])
  {
  }

  /** `s.lstrip("0")`. */
  function StripLeadingZeros(s: string): (r: string)
    ensures |r| <= |s|
  {
    if s != [] && s[0] == '0' then StripLeadingZeros(s[1..]) else s
  }

  /**
   * Stripping the leading zeros of a digit string gives `str(int(s))` of
   * its value when that value is positive, and the empty text when it is
   * zero (never "0").
   */
  lemma {:induction false} StripLeadingZerosIsNumeral(s: string)
    requires AllDigits(s)
    ensures DigitsValue(s) > 0 ==> StripLeadingZeros(s) == NatDigits(DigitsValue(s))
    ensures DigitsValue(s) == 0 ==> StripLeadingZeros(s) == ""
    decreases |s|
  {
    if s == [] {
    } else if s[0] == '0' {
      assert s == "0" + s[1..];
      DigitsValueZeroPrefix(s[1..]);
      StripLeadingZerosIsNumeral(s[1..]);
    } else {
      CanonicalNumeral(s);
      LeadingDigitBound(s);
    }
  }

  // ---------------------------------------------------------------------
  // Key in a page's text: re.findall(r"\b\d{44}\b", text.upper())
  // ---------------------------------------------------------------------

  /** The characters `\w` matches, ASCII only. */
  predicate IsWordChar(c: char)
  {
    IsDigit(c) || 'a' <= c <= 'z' || 'A' <= c <= 'Z' || c == '_'
  }

  /** `\b\d{44}\b` matches at `i`: 44 digits with no word character on either side. */
  predicate BoundedRunAt(s: string, i: nat)
  {
    DigitRunAt(s, i) && (i == 0 || !IsWordChar(s[i - 1])) && (i + 44 == |s| || !IsWordChar(s[i + 44]))
  }

  /** The matches `findall` returns scanning from `from`: after a match it resumes past it. */
  function KeyTokens(s: string, from: nat): (r: seq<string>)
    ensures forall t :: t in r ==> |t| == 44 && AllDigits(t)
    decreases |s| - from
  {
    if from + 44 > |s| then []
    else if BoundedRunAt(s, from) then [s[from..from + 44]] + KeyTokens(s, from + 44)
    else KeyTokens(s, from + 1)
  }

  /** The first token that is a valid CT-e key. */
  function FirstValidKey(tokens: seq<string>): (r: Option<string>)
    ensures r.Some? ==> r.value in tokens && IsCteKey(r.value)
    ensures r.None? <==> forall t :: t in tokens ==> !IsCteKey(t)
  {
    if tokens == [] then None
    else if IsCteKey(tokens[0]) then Some(tokens[0])
    else FirstValidKey(tokens[1..])
  }

  /** The text branch of `extrair_chave_cte`. */
  function TextKey(text: string): (r: Option<string>)
    ensures r.Some? ==> IsCteKey(r.value)
  {
    FirstValidKey(KeyTokens(Upper(text), 0))
  }

  /** Every match of the pattern at or after `from` is one of the tokens: matches never overlap. */
  lemma {:induction false} MatchIsToken(s: string, from: nat, i: nat)
    requires from <= i && BoundedRunAt(s, i)
    ensures s[i..i + 44] in KeyTokens(s, from)
    decreases |s| - from
  {
    if from == i {
    } else if BoundedRunAt(s, from) {
      MatchIsToken(s, from + 44, i);
    } else {
      MatchIsToken(s, from + 1, i);
    }
  }

  /** Every token is a match of the pattern at or after `from`. */
  lemma {:induction false} TokenIsMatch(s: string, from: nat, t: string)
    requires t in KeyTokens(s, from)
    ensures exists i :: from <= i && BoundedRunAt(s, i) && t == s[i..i + 44]
    decreases |s| - from
  {
    if BoundedRunAt(s, from) {
      if t != s[from..from + 44] {
        TokenIsMatch(s, from + 44, t);
      }
    } else {
      TokenIsMatch(s, from + 1, t);
    }
  }

  /** A page whose text holds a word-bounded valid key always yields a key from its text. */
  lemma TextKeyFound(text: string, i: nat)
    requires BoundedRunAt(Upper(text), i) && IsCteKey(Upper(text)[i..i + 44])
    ensures TextKey(text).Some?
  {
    MatchIsToken(Upper(text), 0, i);
  }

  // ---------------------------------------------------------------------
  // Key in a barcode, and the combined lookup
  // ---------------------------------------------------------------------

  /** A decoded payload (`None`: not valid UTF-8) that, stripped, is a valid key. */
  predicate IsKeyPayload(p: Option<string>)
  {
    p.Some? && IsCteKey(Strip(p.value))
  }

  /** The first key payload at or after `from`. */
  function FirstKeyPayload(payloads: seq<Option<string>>, from: nat): (r: Option<nat>)
    ensures r.Some? ==> from <= r.value < |payloads| && IsKeyPayload(payloads[r.value])
    ensures r.Some? ==> forall j :: from <= j < r.value ==> !IsKeyPayload(payloads[j])
    ensures r.None? ==> forall j :: from <= j < |payloads| ==> !IsKeyPayload(payloads[j])
    decreases |payloads| - from
  {
    if from >= |payloads| then None
    else if IsKeyPayload(payloads[from]) then Some(from)
    else FirstKeyPayload(payloads, from + 1)
  }

  /**
   * `extrair_chave_cte_da_imagem` of src/rateio.py over the decoded barcodes
   * of one image: undecodable payloads are skipped and the first stripped
   * payload that is a valid key is returned.
   */
  function ImageKey(payloads: seq<Option<string>>): (r: Option<string>)
    ensures r.Some? ==> IsCteKey(r.value)
  {
    match FirstKeyPayload(payloads, 0)
    case None => None
    case Some(i) => Some(Strip(payloads[i].value))
  }

  /**
   * `extrair_chave_cte` of src/rateio.py: the text is searched first when it
   * is non-empty; the barcodes are read only when the text gives no key.
   */
  function ExtractKey(text: Option<string>, image: Option<seq<Option<string>>>): (r: Option<string>)
    ensures r.Some? ==> IsCteKey(r.value)
  {
    if text.Some? && text.value != "" && TextKey(text.value).Some? then TextKey(text.value)
    else if image.Some? then ImageKey(image.value)
    else None
  }

  /** A key in the text wins over any barcode. */
  lemma TextKeyTakesPrecedence(text: string, image: Option<seq<Option<string>>>, i: nat)
    requires BoundedRunAt(Upper(text), i) && IsCteKey(Upper(text)[i..i + 44])
    ensures ExtractKey(Some(text), image) == TextKey(text)
  {
    TextKeyFound(text, i);
  }
}
