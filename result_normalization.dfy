/**
 * The text clean-up applied to a poll record's `resultado` before it is parsed:
 * `resultado.replace("%", "").replace(",", ".")`.
 *
 * `String.prototype.replace` with a string pattern rewrites only the FIRST
 * occurrence of the pattern, so a second '%' or a second ',' survives.
 */
module ResultNormalization {

  /** Position of the first occurrence of `c` in `s`. */
  function FirstIndex(s: string, c: char): (i: nat)
    requires c in s
    ensures i < |s| && s[i] == c
    ensures c !in s[..i]
  {
    if s[0] == c then 0
    else
      var i := 1 + FirstIndex(s[1..], c);
      assert s[..i] == [s[0]] + s[1..][..i - 1];
      i
  }

  /** `s.replace(c, rep)` for a one-character string pattern `c`. */
  function ReplaceFirst(s: string, c: char, rep: string): string {
    if s == [] then []
    else if s[0] == c then rep + s[1..]
    else [s[0]] + ReplaceFirst(s[1..], c, rep)
  }

  /** Without an occurrence of the pattern, `replace` returns the string unchanged. */
  lemma {:induction false} ReplaceFirstAbsent(s: string, c: char, rep: string)
    requires c !in s
    ensures ReplaceFirst(s, c, rep) == s
  {
    if s != [] {
      ReplaceFirstAbsent(s[1..], c, rep);
    }
  }

  /** Only the first occurrence is replaced: whatever follows it, later occurrences included, is kept. */
  lemma {:induction false} ReplaceFirstAt(before: string, c: char, after: string, rep: string)
    requires c !in before
    ensures ReplaceFirst(before + [c] + after, c, rep) == before + rep + after
  {
    var s := before + [c] + after;
    if before == [] {
      assert s == [c] + after;
    } else {
      assert s[0] == before[0] && s[1..] == before[1..] + [c] + after;
      ReplaceFirstAt(before[1..], c, after, rep);
      assert before + rep + after == [before[0]] + (before[1..] + rep + after);
    }
  }

  /** The string cut at the first occurrence of `c`, and what `replace` makes of it. */
  lemma SplitAtFirst(s: string, c: char, rep: string) returns (before: string, after: string)
    requires c in s
    ensures s == before + [c] + after && c !in before
    ensures ReplaceFirst(s, c, rep) == before + rep + after
  {
    var i := FirstIndex(s, c);
    before, after := s[..i], s[i + 1..];
    assert s == before + [c] + after;
    ReplaceFirstAt(before, c, after, rep);
  }

  /** The string handed to `parseFloat` for a record whose text is `resultado`. */
  function Normalize(resultado: string): string {
    ReplaceFirst(ReplaceFirst(resultado, '%', ""), ',', ".")
  }

  /** A text with neither '%' nor ',' is handed to `parseFloat` unchanged. */
  lemma NormalizeUnchanged(resultado: string)
    requires '%' !in resultado && ',' !in resultado
    ensures Normalize(resultado) == resultado
  {
    ReplaceFirstAbsent(resultado, '%', "");
    ReplaceFirstAbsent(resultado, ',', ".");
  }

  /** A Brazilian-formatted percentage such as "42,5%" becomes the decimal "42.5". */
  lemma NormalizeDecimal(inteira: string, fracao: string)
    requires '%' !in inteira && '%' !in fracao && ',' !in inteira
    ensures Normalize(inteira + "," + fracao + "%") == inteira + "." + fracao
  {
    var s1 := inteira + "," + fracao;
    assert '%' !in s1;
    ReplaceFirstAt(s1, '%', "", "");
    assert s1 + "%" == s1 + ['%'] + "" && s1 + "" + "" == s1;
    assert s1 == inteira + [','] + fracao;
    ReplaceFirstAt(inteira, ',', fracao, ".");
  }

  /** The characters the normalisation may touch. */
  predicate Rewritten(ch: char) {
    ch == '%' || ch == ',' || ch == '.'
  }

  /** `s` with the characters the normalisation may touch filtered out. */
  function Untouched(s: string): (r: string)
    ensures forall ch :: ch in r ==> ch in s && !Rewritten(ch)
  {
    if s == [] then [] else (if Rewritten(s[0]) then [] else [s[0]]) + Untouched(s[1..])
  }

  lemma {:induction false} UntouchedConcat(a: string, b: string)
    ensures Untouched(a + b) == Untouched(a) + Untouched(b)
  {
    if a == [] {
      assert a + b == b;
    } else {
      assert (a + b)[1..] == a[1..] + b;
      UntouchedConcat(a[1..], b);
    }
  }

  /** Replacing the first rewritten character `c` by "" or "." keeps every other character in order. */
  lemma ReplaceFirstUntouched(s: string, c: char, rep: string)
    requires Rewritten(c) && (rep == "" || rep == ".")
    ensures Untouched(ReplaceFirst(s, c, rep)) == Untouched(s)
  {
    if c in s {
      var before, after := SplitAtFirst(s, c, rep);
      UntouchedConcat(before + [c], after);
      UntouchedConcat(before, [c]);
      UntouchedConcat(before + rep, after);
      UntouchedConcat(before, rep);
    } else {
      ReplaceFirstAbsent(s, c, rep);
    }
  }

  /** Every character other than '%', ',' and '.' survives normalisation, in its original order. */
  lemma NormalizeKeepsOrder(resultado: string)
    ensures Untouched(Normalize(resultado)) == Untouched(resultado)
  {
    ReplaceFirstUntouched(resultado, '%', "");
    ReplaceFirstUntouched(ReplaceFirst(resultado, '%', ""), ',', ".");
  }

  /** Removing the first '%' takes one '%' out and leaves every other count alone. */
  lemma RemovePercentCounts(s: string)
    ensures multiset(ReplaceFirst(s, '%', ""))['%'] == multiset(s)['%'] - (if '%' in s then 1 else 0)
    ensures forall ch :: ch != '%' ==> multiset(ReplaceFirst(s, '%', ""))[ch] == multiset(s)[ch]
  {
    if '%' in s {
      var before, after := SplitAtFirst(s, '%', "");
      assert multiset(s) == multiset(before) + multiset{'%'} + multiset(after);
      assert multiset(ReplaceFirst(s, '%', "")) == multiset(before) + multiset(after);
    } else {
      ReplaceFirstAbsent(s, '%', "");
    }
  }

  /** Turning the first ',' into '.' moves one count from ',' to '.' and leaves the others alone. */
  lemma CommaToPointCounts(s: string)
    ensures multiset(ReplaceFirst(s, ',', "."))[','] == multiset(s)[','] - (if ',' in s then 1 else 0)
    ensures multiset(ReplaceFirst(s, ',', "."))['.'] == multiset(s)['.'] + (if ',' in s then 1 else 0)
    ensures forall ch :: ch != ',' && ch != '.' ==> multiset(ReplaceFirst(s, ',', "."))[ch] == multiset(s)[ch]
  {
    if ',' in s {
      var before, after := SplitAtFirst(s, ',', ".");
      assert multiset(s) == multiset(before) + multiset{','} + multiset(after);
      assert multiset(ReplaceFirst(s, ',', ".")) == multiset(before) + multiset{'.'} + multiset(after);
    } else {
      ReplaceFirstAbsent(s, ',', ".");
    }
  }

  /**
   * Normalisation removes exactly one '%' when there is one, turns exactly one ','
   * into '.' when there is one, and leaves the count of every other character alone.
   */
  lemma NormalizeCounts(resultado: string)
    ensures multiset(Normalize(resultado))['%'] == multiset(resultado)['%'] - (if '%' in resultado then 1 else 0)
    ensures multiset(Normalize(resultado))[','] == multiset(resultado)[','] - (if ',' in resultado then 1 else 0)
    ensures multiset(Normalize(resultado))['.'] == multiset(resultado)['.'] + (if ',' in resultado then 1 else 0)
    ensures forall ch :: !Rewritten(ch) ==> multiset(Normalize(resultado))[ch] == multiset(resultado)[ch]
  {
    var s1 := ReplaceFirst(resultado, '%', "");
    RemovePercentCounts(resultado);
    CommaToPointCounts(s1);
    assert ',' in s1 <==> ',' in resultado by {
      assert ',' in s1 <==> multiset(s1)[','] > 0;
      assert ',' in resultado <==> multiset(resultado)[','] > 0;
    }
  }
}
