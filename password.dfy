/** The character step of the password formatter: a 32-bit word is reduced
    modulo 62 and the residue is mapped onto the digits, the upper-case
    letters and the lower-case letters of ASCII, in that order. */
module Password {
  import opened BoundedInts

  /** Ten digits, then 26 upper-case letters, then 26 lower-case letters. */
  const AlphabetSize: nat := 10 + 26 + 26

  /** The ASCII characters from `lo` to `hi` inclusive, in code order. */
  function CharRange(lo: char, hi: char): (r: string)
    requires lo <= hi && hi as int < 128
    ensures |r| == hi as int - lo as int + 1
    ensures forall c: char :: c in r <==> lo <= c <= hi
    ensures forall i, j :: 0 <= i < j < |r| ==> r[i] < r[j]
  {
    var r := seq(hi as int - lo as int + 1, i requires 0 <= i <= hi as int - lo as int => (lo as int + i) as char);
    assert forall c: char | lo <= c <= hi :: c in r by {
      forall c: char | lo <= c <= hi
        ensures c in r
      {
        assert r[c as int - lo as int] == c;
      }
    }
    r
  }

  /** The 62 password symbols in residue order: the reference the
      if/else-if chain of the formatter is checked against. */
  const Alphabet: string := CharRange('0', '9') + CharRange('A', 'Z') + CharRange('a', 'z')

  predicate IsAlnum(c: char) {
    '0' <= c <= '9' || 'A' <= c <= 'Z' || 'a' <= c <= 'z'
  }

  /** `(uint8_t)(true_random % 62)`: the residue the formatter starts from. */
  function Residue(w: u32): (c: u8)
    ensures c < AlphabetSize && c == w % AlphabetSize
  {
    Trunc8(w % AlphabetSize)
  }

  /** The if/else-if chain that turns the residue into a character code,
      each arm with its `(uint8_t)` cast; a value that passes none of the
      three guards would be left as it is. */
  function MapResidue(c: u8): (r: u8)
    ensures c < AlphabetSize ==> IsAlnum(r as char)
  {
    if c < 10 then Trunc8(c + 48)
    else if c < 10 + 26 then Trunc8(c + 65 - 10)
    else if c < 10 + 26 + 26 then Trunc8(c + 97 - 10 - 26)
    else c
  }

  /** The password character the formatter emits for one drawn word. */
  function PasswordChar(w: u32): (ch: char)
    ensures IsAlnum(ch)
  {
    MapResidue(Residue(w)) as char
  }

  /** Below 62 the chain picks the residue's entry of the alphabet. */
  lemma MapResidueIsAlphabet(c: u8)
    requires c < AlphabetSize
    ensures |Alphabet| == AlphabetSize && MapResidue(c) as char == Alphabet[c]
  {
  }

  /** The character emitted for a word is the alphabet entry of its residue
      modulo 62. */
  lemma PasswordCharIsAlphabet(w: u32)
    ensures |Alphabet| == AlphabetSize && PasswordChar(w) == Alphabet[w % AlphabetSize]
  {
    MapResidueIsAlphabet(Residue(w));
  }

  /** The position of an alphanumeric character in the alphabet. */
  function ResidueOf(c: char): (v: nat)
    requires IsAlnum(c)
    ensures v < AlphabetSize == |Alphabet| && Alphabet[v] == c
  {
    if c <= '9' then c as int - '0' as int
    else if c <= 'Z' then c as int - 'A' as int + 10
    else c as int - 'a' as int + 36
  }

  /** The alphabet holds exactly the alphanumeric characters: each of its 62
      entries is one, and its positions are recovered from the characters,
      so no two residues share a character. */
  lemma AlphabetIsAlnum(v: nat)
    requires v < AlphabetSize
    ensures |Alphabet| == AlphabetSize
    ensures IsAlnum(Alphabet[v]) && ResidueOf(Alphabet[v]) == v
  {
  }

  /** The residue-to-character map is injective. */
  lemma AlphabetInjective(v: nat, v': nat)
    requires v < AlphabetSize && v' < AlphabetSize
    ensures |Alphabet| == AlphabetSize
    ensures Alphabet[v] == Alphabet[v'] ==> v == v'
  {
    AlphabetIsAlnum(v);
    AlphabetIsAlnum(v');
  }

  /** The three arms of the chain, stated on the residue `v = w mod 62`. */
  lemma PasswordCharPiecewise(w: u32)
    ensures var v := w % AlphabetSize;
      && (v < 10 ==> PasswordChar(w) as int == '0' as int + v)
      && (10 <= v < 36 ==> PasswordChar(w) as int == 'A' as int + (v - 10))
      && (36 <= v ==> PasswordChar(w) as int == 'a' as int + (v - 36))
  {
  }

  /** No residue reaches the silent fall-through of the chain: once the
      first two guards fail the third holds, so the residue is always
      replaced by a character code (never left as the raw residue). */
  lemma NoResidueUnmapped(w: u32)
    ensures MapResidue(Residue(w)) != Residue(w)
    ensures 48 <= MapResidue(Residue(w)) <= 122
  {
  }

  /** Named boundary values of the map. */
  lemma BoundaryValues()
    ensures PasswordChar(0) == '0' && PasswordChar(9) == '9'
    ensures PasswordChar(10) == 'A' && PasswordChar(35) == 'Z'
    ensures PasswordChar(36) == 'a' && PasswordChar(61) == 'z'
    ensures PasswordChar(62) == '0'
  {
  }

  /** The characters emitted for `ws`, one per word, in draw order. */
  function PasswordText(ws: seq<u32>): (s: string)
    ensures |s| == |ws|
  {
    seq(|ws|, i requires 0 <= i < |ws| => PasswordChar(ws[i]))
  }

  /** Printing one more character appends the character of the new word. */
  lemma PasswordTextAppend(ws: seq<u32>, w: u32)
    ensures PasswordText(ws + [w]) == PasswordText(ws) + [PasswordChar(w)]
  {
    assert forall i :: 0 <= i < |ws| ==> (ws + [w])[i] == ws[i];
  }

  /** Every character of a password is alphanumeric. */
  lemma PasswordTextAlnum(ws: seq<u32>)
    ensures forall i :: 0 <= i < |PasswordText(ws)| ==> IsAlnum(PasswordText(ws)[i])
  {
  }

  /** The residues of each word modulo 62, in order. */
  function Residues(ws: seq<u32>): (vs: seq<nat>)
    ensures |vs| == |ws| && |Alphabet| == AlphabetSize
    ensures forall i :: 0 <= i < |ws| ==> vs[i] < AlphabetSize && Alphabet[vs[i]] == PasswordChar(ws[i])
  {
    assert forall i | 0 <= i < |ws| :: Alphabet[ws[i] % AlphabetSize] == PasswordChar(ws[i]) by {
      forall i | 0 <= i < |ws|
        ensures Alphabet[ws[i] % AlphabetSize] == PasswordChar(ws[i])
      {
        PasswordCharIsAlphabet(ws[i]);
      }
    }
    seq(|ws|, i requires 0 <= i < |ws| => ws[i] % AlphabetSize)
  }

  /** Reads a password back as alphabet positions. */
  function ResiduesOfText(s: string): (vs: seq<nat>)
    requires forall i :: 0 <= i < |s| ==> IsAlnum(s[i])
    ensures |vs| == |s|
  {
    if s == [] then [] else ResiduesOfText(s[..|s| - 1]) + [ResidueOf(s[|s| - 1])]
  }

  /** A password determines the residues of the words drawn for it, and
      nothing more: reading it back gives `w mod 62` for each word. */
  lemma {:induction false} PasswordResiduesRoundTrip(ws: seq<u32>)
    ensures forall i :: 0 <= i < |PasswordText(ws)| ==> IsAlnum(PasswordText(ws)[i])
    ensures ResiduesOfText(PasswordText(ws)) == Residues(ws)
  {
    if ws != [] {
      var init := ws[..|ws| - 1];
      var s := PasswordText(ws);
      assert ws == init + [ws[|ws| - 1]];
      PasswordTextAppend(init, ws[|ws| - 1]);
      assert s[..|s| - 1] == PasswordText(init);
      PasswordResiduesRoundTrip(init);
      PasswordCharIsAlphabet(ws[|ws| - 1]);
      AlphabetIsAlnum(ws[|ws| - 1] % AlphabetSize);
      assert Residues(ws) == Residues(init) + [ws[|ws| - 1] % AlphabetSize];
    }
  }
}
