/**
 * Operation classification: `identificar_prefixo_oper` and
 * `verificar_complemento` (src/generalsutils.py, duplicated in src/rateio.py).
 *
 * Upper-casing is ASCII upper-casing; `in` on strings is `Contains`.
 */
module Operation {
  import opened Wrappers
  import opened Text

  /** The three operation prefixes: V (venda), B (bonificação), A (amostra). */
  datatype Prefix = Venda | Bonificacao | Amostra

  /** The one-letter prefix printed on the overlay. */
  function Letter(p: Prefix): string
  {
    match p
    case Venda => "V"
    case Bonificacao => "B"
    case Amostra => "A"
  }

  /** The keyword searched for in the upper-cased operation text. */
  function Keyword(p: Prefix): string
  {
    match p
    case Venda => "VENDA"
    case Bonificacao => "BONIF"
    case Amostra => "AMOSTRA"
  }

  /** The order in which the keywords are tried: VENDA, then BONIF, then AMOSTRA. */
  function Rank(p: Prefix): nat
  {
    match p
    case Venda => 0
    case Bonificacao => 1
    case Amostra => 2
  }

  /**
   * `identificar_prefixo_oper`: `None` for a missing or empty text, otherwise
   * the first keyword, in rank order, that occurs in the upper-cased text.
   */
  function OperationPrefix(op: Option<string>): (r: Option<Prefix>)
    ensures r.Some? ==> op.Some? && Contains(Upper(op.value), Keyword(r.value))
    ensures r.Some? ==> forall q :: Rank(q) < Rank(r.value) ==> !Contains(Upper(op.value), Keyword(q))
    ensures r.None? <==> op.None? || forall q :: !Contains(Upper(op.value), Keyword(q))
  {
    if op.None? || op.value == "" then None
    else
      var u := Upper(op.value);
      if Contains(u, "VENDA") then Some(Venda)
      else if Contains(u, "BONIF") then Some(Bonificacao)
      else if Contains(u, "AMOSTRA") then Some(Amostra)
      else None
  }

  /** Upper-casing after lower-casing is upper-casing. */
  lemma UpperOfLower(s: string)
    ensures Upper(Lower(s)) == Upper(s)
  {
    forall i | 0 <= i < |s| ensures Upper(Lower(s))[i] == Upper(s)[i] {
      assert Lower(s)[i] == LowerChar(s[i]);
    }
  }

  /** Matching ignores case: a text and its lower-cased form get the same prefix. */
  lemma PrefixIgnoresCase(s: string)
    ensures OperationPrefix(Some(Lower(s))) == OperationPrefix(Some(s))
  {
    UpperOfLower(s);
  }

  /** Text mentioning both a sale and a bonus is a sale: VENDA wins. */
  lemma SaleTakesPriority(s: string)
    requires Contains(Upper(s), "VENDA") && Contains(Upper(s), "BONIF")
    ensures OperationPrefix(Some(s)) == Some(Venda)
  {
  }

  /**
   * `verificar_complemento` of src/generalsutils.py: false for a missing or
   * empty text, otherwise whether "COMPLEMENTO" occurs in it, ignoring case.
   */
  function IsComplement(text: Option<string>): (r: bool)
    ensures r ==> text.Some? && |text.value| >= |"COMPLEMENTO"|
  {
    if text.None? || text.value == "" then false
    else Contains(Upper(text.value), "COMPLEMENTO")
  }

  /** `verificar_complemento` of src/rateio.py: only `None` is tested before the search. */
  function IsComplementNoneOnly(text: Option<string>): bool
  {
    if text.None? then false else Contains(Upper(text.value), "COMPLEMENTO")
  }

  /** The two versions of the check agree on every input, the empty text included. */
  lemma ComplementVersionsAgree(text: Option<string>)
    ensures IsComplementNoneOnly(text) == IsComplement(text)
  {
    if text.Some? && text.value == "" {
      assert !OccursAt(Upper(""), "COMPLEMENTO", 0);
    }
  }

  /** The check ignores case. */
  lemma ComplementIgnoresCase(s: string)
    ensures IsComplement(Some(Lower(s))) == IsComplement(Some(s))
  {
    UpperOfLower(s);
  }
}
