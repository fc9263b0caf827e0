/**
 * The signature-help provider: it looks at the one character before the
 * cursor and offers a single placeholder signature after an opening
 * parenthesis.
 */
module SignatureHelp {
  import opened Js

  datatype SignatureHelp = SignatureHelp(signatures: seq<string>, activeSignature: nat)

  /** The promise either resolves with a help record or rejects. */
  datatype Outcome = Resolved(help: SignatureHelp) | Rejected

  /** The character `substr(offset - 1, 1)` reads: the one before the offset, or the last one at offset 0. */
  function CharBefore(text: string, offset: nat): (c: Option<char>)
    requires offset <= |text|
  {
    if offset > 0 then Some(text[offset - 1])
    else if |text| > 0 then Some(text[|text| - 1])
    else None
  }

  /** `provideSignatureHelp` for a document text and the cursor's offset in it. */
  function ProvideSignatureHelp(text: string, offset: nat): (r: Outcome)
    requires offset <= |text|
    ensures r.Resolved? <==> CharBefore(text, offset) == Some('(')
    ensures r.Resolved? ==> r.help.signatures == ["*args"] && r.help.activeSignature == 0
  {
    if Substr(text, offset - 1, 1) == "(" then Resolved(SignatureHelp(["*args"], 0)) else Rejected
  }

  /** Only the character before the cursor matters: texts that agree there get the same answer. */
  lemma OnlyCharBeforeMatters(t1: string, o1: nat, t2: string, o2: nat)
    requires o1 <= |t1| && o2 <= |t2|
    requires CharBefore(t1, o1) == CharBefore(t2, o2)
    ensures ProvideSignatureHelp(t1, o1) == ProvideSignatureHelp(t2, o2)
  {
  }

  /** At offset 0 the provider reads the document's last character, so a text ending in `(` resolves. */
  lemma OffsetZeroReadsLast(text: string)
    requires |text| > 0 && text[|text| - 1] == '('
    ensures ProvideSignatureHelp(text, 0).Resolved?
  {
  }
}
