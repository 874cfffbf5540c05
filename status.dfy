/** `print_status_message` (copy_edit.py:17-23): the status-bar text after a
    copy, cut or paste. */
module Status {
  import opened Text
  import opened Copy

  /** Total characters over the stored fragments (copy_edit.py:19). */
  function NumChars(store: seq<Fragment>): nat
    decreases |store|
  {
    if store == [] then 0 else |store[0].text| + NumChars(store[1..])
  }

  /** The count is the length of the stored texts run together: separators
      and repeated pastes are not counted. */
  lemma {:induction false} NumCharsCounts(store: seq<Fragment>)
    ensures NumChars(store) == |Concat(Texts(store))|
    decreases |store|
  {
    if store != [] {
      assert Texts(store)[1..] == Texts(store[1..]);
      NumCharsCounts(store[1..]);
    }
  }

  /** "{verb} {N} character", "s" unless N is 1, and " over {R} selection
      regions" when R is more than 1. */
  function StatusText(verb: string, numchars: nat, numregions: nat): (s: string)
    ensures |s| > |verb| + 1 && s[..|verb| + 1] == verb + " "
  {
    verb + " " + Decimal(numchars) + Tail(numchars, numregions)
  }

  function Tail(numchars: nat, numregions: nat): (t: string)
    ensures |t| > 0 && t[0] == ' '
  {
    " character" + Plural(numchars) + OverClause(numregions)
  }

  function Plural(n: nat): string { if n != 1 then "s" else "" }

  function OverClause(numregions: nat): string {
    if numregions > 1 then " over " + Decimal(numregions) + " selection regions" else ""
  }

  /** The message for the current store; a region count of 0 (or none given)
      falls back to the store size (`numregions or len(selection_strings)`). */
  function StatusMessage(verb: string, store: seq<Fragment>, numregions: nat): (s: string)
    ensures numregions == 0 ==> s == StatusText(verb, NumChars(store), |store|)
    ensures numregions > 0 ==> s == StatusText(verb, NumChars(store), numregions)
  {
    StatusText(verb, NumChars(store), if numregions == 0 then |store| else numregions)
  }

  /** The message reports its numbers unambiguously: the character count can
      be read back from it, and so can a region count above 1; a count of 0 or
      1 regions leaves no trace. */
  lemma StatusTextDetermines(verb: string, n1: nat, r1: nat, n2: nat, r2: nat)
    requires StatusText(verb, n1, r1) == StatusText(verb, n2, r2)
    ensures n1 == n2
    ensures r1 > 1 || r2 > 1 ==> r1 == r2
  {
    DropVerb(verb, n1, r1, n2, r2);
    DigitPrefixUnique(Decimal(n1), Tail(n1, r1), Decimal(n2), Tail(n2, r2));
    DecimalInjective(n1, n2);
    TailDetermines(n1, r1, r2);
  }

  lemma DropVerb(verb: string, n1: nat, r1: nat, n2: nat, r2: nat)
    requires StatusText(verb, n1, r1) == StatusText(verb, n2, r2)
    ensures Decimal(n1) + Tail(n1, r1) == Decimal(n2) + Tail(n2, r2)
  {
    CancelPrefix2(verb + " ", Decimal(n1), Tail(n1, r1), Decimal(n2), Tail(n2, r2));
  }

  lemma CancelPrefix2(p: string, a1: string, b1: string, a2: string, b2: string)
    requires p + a1 + b1 == p + a2 + b2
    ensures a1 + b1 == a2 + b2
  {
    assert p + a1 + b1 == p + (a1 + b1);
    assert p + a2 + b2 == p + (a2 + b2);
    CancelPrefix(p, a1 + b1, a2 + b2);
  }

  lemma TailDetermines(n: nat, r1: nat, r2: nat)
    requires Tail(n, r1) == Tail(n, r2)
    ensures r1 > 1 || r2 > 1 ==> r1 == r2
  {
    CancelPrefix(" character" + Plural(n), OverClause(r1), OverClause(r2));
    OverClauseDetermines(r1, r2);
  }

  lemma CancelPrefix(p: string, a: string, b: string)
    requires p + a == p + b
    ensures a == b
  {
    assert a == (p + a)[|p|..];
    assert b == (p + b)[|p|..];
  }

  lemma OverClauseDetermines(r1: nat, r2: nat)
    requires OverClause(r1) == OverClause(r2)
    ensures r1 > 1 || r2 > 1 ==> r1 == r2
  {
    if r1 > 1 && r2 > 1 {
      var tail := " selection regions";
      var q := " over ";
      assert OverClause(r1) == q + (Decimal(r1) + tail);
      assert OverClause(r2) == q + (Decimal(r2) + tail);
      CancelPrefix(q, Decimal(r1) + tail, Decimal(r2) + tail);
      DigitPrefixUnique(Decimal(r1), tail, Decimal(r2), tail);
      DecimalInjective(r1, r2);
    }
  }
}
