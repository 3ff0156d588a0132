/**
 * The web socket server's start-up values: the pre-shared key drawn from 128 random
 * bytes, and the URL it listens on.
 */
module WebSocketProgram {

  import Text

  const LowerLetters := "abcdefghijklmnopqrstuvwxyz"
  const UpperLetters := "ABCDEFGHIJKLMNOPQRSTUVWXYZ"
  const Digits := "0123456789"
  /** validCharacters: "abc...xyzABC...XYZ0123456789". */
  const ValidCharacters := LowerLetters + UpperLetters + Digits
  const PasswordBytes := 128
  const DefaultHost := "+"

  predicate IsAlphanumeric(c: char)
  {
    'a' <= c <= 'z' || 'A' <= c <= 'Z' || '0' <= c <= '9'
  }

  lemma LowerLettersAreLetters(k: int)
    requires 0 <= k < |LowerLetters|
    ensures 'a' <= LowerLetters[k] <= 'z'
  {
  }

  lemma UpperLettersAreLetters(k: int)
    requires 0 <= k < |UpperLetters|
    ensures 'A' <= UpperLetters[k] <= 'Z'
  {
  }

  lemma DigitsAreDigits(k: int)
    requires 0 <= k < |Digits|
    ensures '0' <= Digits[k] <= '9'
  {
  }

  /** Every one of the 62 characters is an ASCII letter or digit. */
  lemma AlphabetIsAlphanumeric(k: int)
    requires 0 <= k < |ValidCharacters|
    ensures IsAlphanumeric(ValidCharacters[k])
  {
    if k < 26 {
      assert ValidCharacters[k] == LowerLetters[k];
      LowerLettersAreLetters(k);
    } else if k < 52 {
      assert ValidCharacters[k] == UpperLetters[k - 26];
      UpperLettersAreLetters(k - 26);
    } else {
      assert ValidCharacters[k] == Digits[k - 52];
      DigitsAreDigits(k - 52);
    }
  }

  /** The character a random byte stands for. */
  function CharOf(b: bv8): char
  {
    ValidCharacters[b as int % |ValidCharacters|]
  }

  /** The key for a sequence of random bytes, one character per byte. */
  function PasswordOf(bytes: seq<bv8>): (p: string)
    ensures |p| == |bytes|
  {
    if bytes == [] then [] else PasswordOf(bytes[..|bytes| - 1]) + [CharOf(bytes[|bytes| - 1])]
  }

  /** Character i of the key is alphabet[byte_i mod 62], and so from the 62 letters and digits. */
  lemma {:induction false} PasswordAt(bytes: seq<bv8>, i: int)
    requires 0 <= i < |bytes|
    ensures PasswordOf(bytes)[i] == ValidCharacters[bytes[i] as int % 62]
    ensures IsAlphanumeric(PasswordOf(bytes)[i])
    decreases |bytes|
  {
    assert |ValidCharacters| == 62;
    if i < |bytes| - 1 {
      PasswordAt(bytes[..|bytes| - 1], i);
    }
    AlphabetIsAlphanumeric(bytes[i] as int % 62);
  }

  /** GeneratePassword, given the generator's 128 bytes: a StringBuilder appended once per byte. */
  method GeneratePassword(randomBytes: array<bv8>) returns (password: string)
    requires randomBytes.Length == PasswordBytes
    ensures password == PasswordOf(randomBytes[..])
    ensures |password| == PasswordBytes
  {
    var sb := "";
    var i := 0;
    while i < randomBytes.Length
      invariant 0 <= i <= randomBytes.Length
      invariant sb == PasswordOf(randomBytes[..i])
    {
      assert randomBytes[..i + 1][..i] == randomBytes[..i];
      sb := sb + [ValidCharacters[randomBytes[i] as int % |ValidCharacters|]];
      i := i + 1;
    }
    assert randomBytes[..i] == randomBytes[..];
    password := sb;
  }

  /** The URL added to app.Urls: https://{Host}:{Port}. */
  function ListenUrl(host: string, port: nat): string
  {
    "https://" + host + ":" + Text.NatToString(port)
  }

  /** The URL determines host and port: the port is what follows the last ':'. */
  lemma ListenUrlInjective(host1: string, port1: nat, host2: string, port2: nat)
    requires ListenUrl(host1, port1) == ListenUrl(host2, port2)
    ensures host1 == host2 && port1 == port2
  {
    var u := ListenUrl(host1, port1);
    var d1, d2 := Text.NatToString(port1), Text.NatToString(port2);
    assert ':' !in d1 by {
      forall i | 0 <= i < |d1| ensures d1[i] != ':' {
        assert Text.IsDigit(d1[i]);
      }
    }
    assert ':' !in d2 by {
      forall i | 0 <= i < |d2| ensures d2[i] != ':' {
        assert Text.IsDigit(d2[i]);
      }
    }
    var k1 := |u| - |d1| - 1;
    var k2 := |u| - |d2| - 1;
    assert u[k1] == ':' && u[k1 + 1..] == d1;
    assert ListenUrl(host2, port2)[k2] == ':' && u[k2 + 1..] == d2;
    assert d1 == d2;
    Text.NatToStringInjective(port1, port2);
    assert "https://" + host1 == u[..k1];
    assert "https://" + host2 == u[..k2];
    assert host1 == u[..k1][8..];
  }
}
