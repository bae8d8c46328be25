/** The bootstrap token's Base58 text: the encoder's loops, a decoder as its
    specification, and the width the token takes in the log's box. */
module Base58 {
  import opened Positional

  const ALPHABET := "123456789" + "ABCDEFGH" + "JKLMN" + "PQRSTUVWXYZ" + "abcdefghijk" + "mnopqrstuvwxyz"
  const BOX_INNER_WIDTH := 66
  const BORDER: char := '\U{2551}'
  const TOKEN_PREFIX := "mlab_"

  predicate IsBytes(bytes: seq<nat>) {
    Numeral(256, bytes)
  }

  // ---- digits and characters ---------------------------------------------------------

  predicate DistinctLetters(alphabet: string) {
    |alphabet| == 58 && forall i, j | 0 <= i < j < 58 :: alphabet[i] != alphabet[j]
  }

  function Letters(alphabet: string, ds: seq<nat>): (s: string)
    requires |alphabet| == 58 && Numeral(58, ds)
    ensures |s| == |ds| && forall i | 0 <= i < |ds| :: s[i] == alphabet[ds[i]]
  {
    seq(|ds|, i requires 0 <= i < |ds| => alphabet[ds[i]])
  }

  function IndexFrom(alphabet: string, c: char, i: nat): (r: nat)
    requires exists k :: i <= k < |alphabet| && alphabet[k] == c
    ensures i <= r < |alphabet| && alphabet[r] == c
    decreases |alphabet| - i
  {
    if alphabet[i] == c then i else IndexFrom(alphabet, c, i + 1)
  }

  predicate IsText(alphabet: string, s: string) {
    forall i | 0 <= i < |s| :: s[i] in alphabet
  }

  function Values(alphabet: string, s: string): (ds: seq<nat>)
    requires |alphabet| == 58 && IsText(alphabet, s)
    ensures |ds| == |s| && Numeral(58, ds) && forall i | 0 <= i < |s| :: alphabet[ds[i]] == s[i]
  {
    seq(|s|, i requires 0 <= i < |s| => assert s[i] in alphabet; IndexFrom(alphabet, s[i], 0))
  }

  /** The text of the bytes: a '1' for each leading zero byte, then one number. */
  function Encoded(alphabet: string, bytes: seq<nat>): string
    requires |alphabet| == 58 && IsBytes(bytes)
  {
    RebaseRoundTrip(256, 58, bytes);
    Letters(alphabet, Rebase(256, 58, bytes))
  }

  /** The decoder as Base58 defines it: each leading '1' is a zero byte, the rest is
      one number written big-endian. */
  function Decoded(alphabet: string, s: string): seq<nat>
    requires |alphabet| == 58 && IsText(alphabet, s)
  {
    Rebase(58, 256, Values(alphabet, s))
  }

  lemma ValuesOfLetters(alphabet: string, ds: seq<nat>)
    requires DistinctLetters(alphabet) && Numeral(58, ds)
    ensures IsText(alphabet, Letters(alphabet, ds)) && Values(alphabet, Letters(alphabet, ds)) == ds
  {
    var s := Letters(alphabet, ds);
    forall i | 0 <= i < |s| ensures s[i] in alphabet { assert s[i] == alphabet[ds[i]]; }
    var vs := Values(alphabet, s);
    forall i | 0 <= i < |ds| ensures vs[i] == ds[i] {
      assert alphabet[vs[i]] == alphabet[ds[i]];
    }
  }

  /** Decoding the encoder's text gives back exactly the bytes, leading and all-zero
      inputs included; so no two byte sequences share a text. */
  lemma DecodeEncode(alphabet: string, bytes: seq<nat>)
    requires DistinctLetters(alphabet) && IsBytes(bytes)
    ensures IsText(alphabet, Encoded(alphabet, bytes))
    ensures Decoded(alphabet, Encoded(alphabet, bytes)) == bytes
  {
    RebaseRoundTrip(256, 58, bytes);
    ValuesOfLetters(alphabet, Rebase(256, 58, bytes));
  }

  /** Every text over the alphabet is the encoding of the bytes it decodes to. */
  lemma EncodeDecode(alphabet: string, s: string)
    requires DistinctLetters(alphabet) && IsText(alphabet, s)
    ensures IsBytes(Decoded(alphabet, s)) && Encoded(alphabet, Decoded(alphabet, s)) == s
  {
    RebaseRoundTrip(58, 256, Values(alphabet, s));
  }

  lemma AlphabetAscends(i: nat)
    requires i < 57
    ensures |ALPHABET| == 58 && ALPHABET[i] < ALPHABET[i + 1]
  {
  }

  lemma {:induction false} AscendingPairs(alphabet: string, i: nat, j: nat)
    requires |alphabet| == 58 && forall k: nat | k < 57 :: alphabet[k] < alphabet[k + 1]
    requires i < j < 58
    ensures alphabet[i] < alphabet[j]
    decreases j - i
  {
    if i + 1 < j { AscendingPairs(alphabet, i + 1, j); }
  }

  /** The alphabet in use satisfies what the round trips need. */
  lemma AlphabetIsDistinct()
    ensures DistinctLetters(ALPHABET)
  {
    forall k: nat | k < 57 ensures ALPHABET[k] < ALPHABET[k + 1] { AlphabetAscends(k); }
    var alphabet := ALPHABET;
    forall i, j | 0 <= i < j < 58 ensures alphabet[i] != alphabet[j] { AscendingPairs(alphabet, i, j); }
  }

  /** The text stands for the same number as the bytes, both read big-endian, and begins with
      a '1' for each leading zero byte. */
  lemma TextMeansNumber(alphabet: string, bytes: seq<nat>)
    requires DistinctLetters(alphabet) && IsBytes(bytes)
    ensures var text := Encoded(alphabet, bytes);
            && IsText(alphabet, text)
            && ValueOf(58, Values(alphabet, text)) == ValueOf(256, bytes)
            && (forall i | 0 <= i < LeadingZeros(bytes) :: i < |text| && text[i] == alphabet[0])
  {
    var digits := Rebase(256, 58, bytes);
    RebaseRoundTrip(256, 58, bytes);
    ValuesOfLetters(alphabet, digits);
    RebaseKeepsValue(256, 58, bytes);
    var text := Encoded(alphabet, bytes);
    assert text == Letters(alphabet, digits);
    assert Values(alphabet, text) == digits;
    forall i | 0 <= i < LeadingZeros(bytes) ensures i < |text| && text[i] == alphabet[0] {
      assert digits[i] == 0;
    }
  }

  /** The alphabet is Base58's: digits and letters without 0, O, I and l. */
  lemma AlphabetIs(c: char)
    ensures |ALPHABET| == 58 && ALPHABET[0] == '1'
    ensures c in ALPHABET <==>
              || '1' <= c <= '9' || ('A' <= c <= 'Z' && c != 'I' && c != 'O')
              || ('a' <= c <= 'z' && c != 'l')
  {
    var (d, u, v, w) := ("123456789", "ABCDEFGH", "JKLMN", "PQRSTUVWXYZ");
    var (x, y) := ("abcdefghijk", "mnopqrstuvwxyz");
    Consecutive(d, c);
    Consecutive(u, c);
    Consecutive(v, c);
    Consecutive(w, c);
    Consecutive(x, c);
    Consecutive(y, c);
  }

  /** A text of consecutive characters holds those from its first to its last. */
  lemma Consecutive(s: string, c: char)
    requires s != "" && forall i | 0 <= i < |s| :: s[i] as int == s[0] as int + i
    ensures c in s <==> s[0] <= c <= s[|s| - 1]
  {
    if s[0] <= c <= s[|s| - 1] {
      assert s[c as int - s[0] as int] == c;
    }
  }

  // ---- the encoder -----------------------------------------------------------------

  function Reversed<T>(s: seq<T>): seq<T> {
    if s == [] then [] else Reversed(s[1..]) + [s[0]]
  }

  /** Divides the number down, collecting digits from the least significant one, turns
      the buffer around in place and puts one '1' before it per leading zero byte. */
  method Base58Encode(alphabet: string, input: seq<nat>) returns (text: string)
    requires |alphabet| == 58 && alphabet[0] == '1' && IsBytes(input)
    ensures text == Encoded(alphabet, input)
  {
    var encoded := DivideDown(alphabet, ValueOf(256, input));
    var buffer := new char[|encoded|](i requires 0 <= i < |encoded| => encoded[i]);
    assert buffer[..] == encoded;
    ReverseInPlace(buffer);
    var leadingZeros := CountLeadingZeros(input);
    LettersAfterOnes(alphabet, input);
    text := Repeat('1', leadingZeros) + buffer[..];
  }

  /** The digits of the number as letters, the least significant one first. */
  method DivideDown(alphabet: string, n: nat) returns (encoded: seq<char>)
    requires |alphabet| == 58
    ensures Numeral(58, DigitsOf(58, n)) && Reversed(encoded) == Letters(alphabet, DigitsOf(58, n))
  {
    var num := n;
    DigitsRoundTrip(58, num);
    ghost var all := Letters(alphabet, DigitsOf(58, num));
    encoded := [];
    while num > 0
      invariant Numeral(58, DigitsOf(58, num))
      invariant all == Letters(alphabet, DigitsOf(58, num)) + Reversed(encoded)
    {
      NextDigit(alphabet, num, encoded);
      encoded := encoded + [alphabet[num % 58]];
      num := num / 58;
    }
    assert Letters(alphabet, DigitsOf(58, num)) == [];
  }

  method CountLeadingZeros(input: seq<nat>) returns (zeros: nat)
    ensures zeros == LeadingZeros(input)
  {
    zeros := 0;
    while zeros < |input| && input[zeros] == 0
      invariant zeros <= LeadingZeros(input)
    {
      zeros := zeros + 1;
    }
  }

  lemma NextDigit(alphabet: string, num: nat, encoded: string)
    requires |alphabet| == 58 && num > 0 && Numeral(58, DigitsOf(58, num))
    ensures num / 58 < num && Numeral(58, DigitsOf(58, num / 58))
    ensures Letters(alphabet, DigitsOf(58, num)) + Reversed(encoded)
         == Letters(alphabet, DigitsOf(58, num / 58)) + Reversed(encoded + [alphabet[num % 58]])
  {
    DivSmaller(num, 58);
    DigitsRoundTrip(58, num / 58);
    ReversedSnoc(encoded, alphabet[num % 58]);
    LettersSnoc(alphabet, DigitsOf(58, num / 58), num % 58);
  }

  lemma LettersSnoc(alphabet: string, ds: seq<nat>, d: nat)
    requires |alphabet| == 58 && Numeral(58, ds) && d < 58
    ensures Numeral(58, ds + [d]) && Letters(alphabet, ds + [d]) == Letters(alphabet, ds) + [alphabet[d]]
  {
  }

  lemma LettersAfterOnes(alphabet: string, input: seq<nat>)
    requires |alphabet| == 58 && alphabet[0] == '1' && IsBytes(input)
    ensures Numeral(58, DigitsOf(58, ValueOf(256, input)))
    ensures Encoded(alphabet, input)
         == Repeat('1', LeadingZeros(input)) + Letters(alphabet, DigitsOf(58, ValueOf(256, input)))
  {
    DigitsRoundTrip(58, ValueOf(256, input));
    RebaseRoundTrip(256, 58, input);
  }

  method ReverseInPlace(a: array<char>)
    modifies a
    ensures a[..] == Reversed(old(a[..]))
  {
    var i, j := 0, a.Length - 1;
    ghost var was := a[..];
    while i < j
      invariant 0 <= i <= a.Length && i + j == a.Length - 1 && i <= j + 2
      invariant forall k | 0 <= k < i || j < k < a.Length :: a[k] == was[a.Length - 1 - k]
      invariant forall k | i <= k <= j :: a[k] == was[k]
    {
      a[i], a[j] := a[j], a[i];
      i, j := i + 1, j - 1;
    }
    ReversedAt(was);
  }

  lemma {:induction false} ReversedAt<T>(s: seq<T>)
    ensures |Reversed(s)| == |s|
    ensures forall k | 0 <= k < |s| :: Reversed(s)[k] == s[|s| - 1 - k]
  {
    if s != [] {
      ReversedAt(s[1..]);
    }
  }

  lemma {:induction false} ReversedSnoc<T>(s: seq<T>, t: T)
    ensures Reversed(s + [t]) == [t] + Reversed(s)
  {
    if s != [] {
      ReversedSnoc(s[1..], t);
      assert (s + [t])[1..] == s[1..] + [t];
    }
  }

  // ---- length -----------------------------------------------------------------------

  lemma Pow256Is()
    ensures Pow(256, 32) == 0x1_0000_0000_0000_0000_0000_0000_0000_0000_0000_0000_0000_0000_0000_0000_0000_0000
  {
    assert Pow(256, 2) == 0x1_0000;
    PowPlus(256, 2, 2);
    assert Pow(256, 4) == 0x1_0000_0000;
    PowPlus(256, 4, 4);
    assert Pow(256, 8) == 0x1_0000_0000_0000_0000;
    PowPlus(256, 8, 8);
    assert Pow(256, 16) == 0x1_0000_0000_0000_0000_0000_0000_0000_0000;
    PowPlus(256, 16, 16);
  }

  lemma Pow58Is()
    ensures Pow(58, 44) == 389790918707373377135528568990913592653094657612049369038476873218241589149696
  {
    assert Pow(58, 2) == 3364;
    assert Pow(58, 3) == 195112;
    PowPlus(58, 3, 2);
    assert Pow(58, 5) == 656356768;
    PowPlus(58, 3, 3);
    assert Pow(58, 6) == 38068692544;
    PowPlus(58, 5, 6);
    assert Pow(58, 11) == 24986644000165537792;
    PowPlus(58, 11, 11);
    assert Pow(58, 22) == 624332378391008467754527498760580235264;
    PowPlus(58, 22, 22);
  }

  /** One byte never needs more than one further character below 45 characters. */
  lemma {:induction false} PowersOrdered(k: nat)
    requires k <= 32
    ensures Pow(256, k) < Pow(58, k + 12)
    decreases 32 - k
  {
    if k == 32 {
      Pow256Is();
      Pow58Is();
    } else {
      PowersOrdered(k + 1);
      assert 256 * Pow(256, k) == Pow(256, k + 1) && 58 * Pow(58, k + 12) == Pow(58, k + 13);
    }
  }

  /** 32 random bytes take at most 44 characters. */
  lemma TokenLength(alphabet: string, bytes: seq<nat>)
    requires |alphabet| == 58 && IsBytes(bytes) && |bytes| == 32
    ensures |Encoded(alphabet, bytes)| <= 44
  {
    var z := LeadingZeros(bytes);
    SplitZeros(256, bytes);
    ValueBound(256, bytes[z..]);
    PowersOrdered(32 - z);
    DigitCount(58, ValueOf(256, bytes), 44 - z);
    RebaseRoundTrip(256, 58, bytes);
  }

  // ---- the logged box ------------------------------------------------------------------

  /** Pads a line's text up to the right border; a text too long gets no border. */
  function BoxLine(text: string): string {
    var n := BOX_INNER_WIDTH - |text|;
    if n < 0 then [BORDER] + text else [BORDER] + text + Repeat(' ', n) + [BORDER]
  }

  /** A line as wide as the box's top and bottom, its text between two borders. */
  predicate ClosedLine(line: string, text: string) {
    && |line| == BOX_INNER_WIDTH + 2 && 1 + |text| < |line|
    && line[0] == BORDER && line[|line| - 1] == BORDER
    && line[1..1 + |text|] == text
    && forall i | 1 + |text| <= i < |line| - 1 :: line[i] == ' '
  }

  lemma BoxLineClosedIffFits(text: string)
    ensures ClosedLine(BoxLine(text), text) <==> |text| <= BOX_INNER_WIDTH
  {
    if |text| <= BOX_INNER_WIDTH {
      var pad := Repeat(' ', BOX_INNER_WIDTH - |text|);
      assert BoxLine(text) == [BORDER] + text + pad + [BORDER];
    }
  }

  /** A line that fits is 68 columns wide: the text, blanks, and the border on both sides. */
  lemma BoxLineIs(text: string)
    requires |text| <= 66
    ensures var line := BoxLine(text);
            && |line| == 68 && line[0] == line[67] == '\U{2551}'
            && line[1..|text| + 1] == text && forall i | |text| < i < 67 :: line[i] == ' '
  {
    BoxLineClosedIffFits(text);
  }

  /** The token's line always fits and keeps its right border. */
  lemma TokenLineClosed(bytes: seq<nat>)
    requires IsBytes(bytes) && |bytes| == 32
    ensures |ALPHABET| == 58
    ensures var text := "  " + TOKEN_PREFIX + Encoded(ALPHABET, bytes);
            ClosedLine(BoxLine(text), text)
  {
    TokenLength(ALPHABET, bytes);
    BoxLineClosedIffFits("  " + TOKEN_PREFIX + Encoded(ALPHABET, bytes));
  }
}
