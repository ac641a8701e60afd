/** Random code generation: six characters drawn from a 62-character
    alphabet. `Math.random()` is replaced by the six draws it would return,
    each a real number in [0, 1). */
module CodeGen {
  import opened LinkSchema

  /** Number of characters in a generated code. */
  const CodeLength: nat := 6

  const Uppercase: string := "ABCDEFGHIJKLMNOPQRSTUVWXYZ"
  const Lowercase: string := "abcdefghijklmnopqrstuvwxyz"
  const Digits: string := "0123456789"

  /** The generator's `chars` string, in the source's order. */
  const Alphabet: string := Uppercase + Lowercase + Digits

  /** A value `Math.random()` can return. */
  predicate IsDraw(r: real) {
    0.0 <= r < 1.0
  }

  /** The draws consumed by one call of the generator. */
  predicate IsDrawSequence(draws: seq<real>) {
    |draws| == CodeLength && forall i :: 0 <= i < |draws| ==> IsDraw(draws[i])
  }

  /** `Math.floor(Math.random() * chars.length)`: the alphabet position a
      draw selects. */
  function Slot(r: real): (k: nat)
    requires IsDraw(r)
    ensures k < |Alphabet|
  {
    (r * |Alphabet| as real).Floor
  }

  /** The code the generator builds from `draws`, one character per draw. */
  function CodeFromDraws(draws: seq<real>): string
    requires IsDrawSequence(draws)
  {
    seq(CodeLength, i requires 0 <= i < CodeLength => Alphabet[Slot(draws[i])])
  }

  /** The alphabet position of an alphanumeric character. */
  function AlphabetIndex(c: char): nat
    requires IsAlphanumeric(c)
  {
    if 'A' <= c <= 'Z' then c as int - 'A' as int
    else if 'a' <= c <= 'z' then 26 + (c as int - 'a' as int)
    else 52 + (c as int - '0' as int)
  }

  /** The characters of the three runs, position by position. */
  lemma UppercaseAt(k: int)
    requires 0 <= k < 26
    ensures Uppercase[k] == ('A' as int + k) as char
  {
  }

  lemma LowercaseAt(k: int)
    requires 0 <= k < 26
    ensures Lowercase[k] == ('a' as int + k) as char
  {
  }

  lemma DigitsAt(k: int)
    requires 0 <= k < 10
    ensures Digits[k] == ('0' as int + k) as char
  {
  }

  /** The alphabet is the three runs A-Z, a-z, 0-9 laid end to end, so
      `AlphabetIndex` inverts indexing into it. */
  lemma AlphabetAt(k: nat)
    requires k < |Alphabet|
    ensures |Alphabet| == 62
    ensures IsAlphanumeric(Alphabet[k]) && AlphabetIndex(Alphabet[k]) == k
  {
    if k < 26 {
      UppercaseAt(k);
    } else if k < 52 {
      LowercaseAt(k - 26);
    } else {
      DigitsAt(k - 52);
    }
  }

  /** Every alphanumeric character sits at exactly one alphabet position. */
  lemma AlphabetIsTheAlphanumericClass(c: char)
    requires IsAlphanumeric(c)
    ensures AlphabetIndex(c) < |Alphabet| && Alphabet[AlphabetIndex(c)] == c
    ensures forall k :: 0 <= k < |Alphabet| && Alphabet[k] == c ==> k == AlphabetIndex(c)
  {
    var k := AlphabetIndex(c);
    if 'A' <= c <= 'Z' {
      UppercaseAt(k);
    } else if 'a' <= c <= 'z' {
      LowercaseAt(k - 26);
    } else {
      DigitsAt(k - 52);
    }
    forall k' | 0 <= k' < |Alphabet| && Alphabet[k'] == c
      ensures k' == AlphabetIndex(c)
    {
      AlphabetAt(k');
    }
  }

  /** Each position is selected by a half-open interval of draws of width
      1/62, so a uniform draw selects every character with equal chance. */
  lemma SlotIsUniform(r: real, k: nat)
    requires IsDraw(r) && k < |Alphabet|
    ensures Slot(r) == k <==> k as real / 62.0 <= r < (k + 1) as real / 62.0
  {
  }

  /** A generated code is six alphabet characters and matches the schema's
      code pattern. */
  lemma GeneratedCodeIsValid(draws: seq<real>)
    requires IsDrawSequence(draws)
    ensures |CodeFromDraws(draws)| == CodeLength
    ensures ValidCode(CodeFromDraws(draws))
  {
    var code := CodeFromDraws(draws);
    forall i | 0 <= i < |code|
      ensures IsAlphanumeric(code[i])
    {
      AlphabetAt(Slot(draws[i]));
    }
  }

  /** Conversely, every six-character alphanumeric code is produced by
      some draws. */
  lemma EverySixCharacterCodeIsGenerable(s: string)
    requires ValidCode(s) && |s| == CodeLength
    ensures exists draws :: IsDrawSequence(draws) && CodeFromDraws(draws) == s
  {
    var draws := seq(CodeLength, i requires 0 <= i < CodeLength => AlphabetIndex(s[i]) as real / 62.0);
    forall i | 0 <= i < CodeLength
      ensures IsDraw(draws[i]) && Alphabet[Slot(draws[i])] == s[i]
    {
      AlphabetIsTheAlphanumericClass(s[i]);
      SlotIsUniform(draws[i], AlphabetIndex(s[i]));
    }
    assert CodeFromDraws(draws) == s;
  }

  /** `generateCode`: appends one alphabet character per draw. */
  method GenerateCode(draws: seq<real>) returns (result: string)
    requires IsDrawSequence(draws)
    ensures result == CodeFromDraws(draws)
    ensures |result| == CodeLength && ValidCode(result)
  {
    result := "";
    for i := 0 to CodeLength
      invariant |result| == i
      invariant forall j :: 0 <= j < i ==> result[j] == Alphabet[Slot(draws[j])]
    {
      result := result + [Alphabet[Slot(draws[i])]];
    }
    GeneratedCodeIsValid(draws);
  }
}
