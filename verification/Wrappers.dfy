/** What every other module uses. */
module Wrappers {
  datatype Option<T> = None | Some(value: T)

  /** A byte as a signed char. */
  function SignedChar(c: char): int {
    if c as int < 0x80 then c as int else c as int - 0x100
  }

  lemma ConcatAssoc<T>(a: seq<T>, b: seq<T>, c: seq<T>)
    ensures (a + b) + c == a + (b + c)
  {
  }

  // ----- Character sets, spelled out -----

  const UPPERCASE := "ABCDEFGHI" + "JKLMNOPQR" + "STUVWXYZ"
  const LOWERCASE := "abcdefghi" + "jklmnopqr" + "stuvwxyz"
  const DECIMALS := "0123456789"

  lemma UppercaseIsRange(c: char)
    ensures c in UPPERCASE <==> 'A' <= c <= 'Z'
  {
    assert 'A' <= c <= 'I' ==> "ABCDEFGHI"[c as int - 'A' as int] == c;
    assert 'J' <= c <= 'R' ==> "JKLMNOPQR"[c as int - 'J' as int] == c;
    assert 'S' <= c <= 'Z' ==> "STUVWXYZ"[c as int - 'S' as int] == c;
  }

  lemma LowercaseIsRange(c: char)
    ensures c in LOWERCASE <==> 'a' <= c <= 'z'
  {
    assert 'a' <= c <= 'i' ==> "abcdefghi"[c as int - 'a' as int] == c;
    assert 'j' <= c <= 'r' ==> "jklmnopqr"[c as int - 'j' as int] == c;
    assert 's' <= c <= 'z' ==> "stuvwxyz"[c as int - 's' as int] == c;
  }

  lemma DecimalsAreRange(c: char)
    ensures c in DECIMALS <==> '0' <= c <= '9'
  {
    assert '0' <= c <= '9' ==> DECIMALS[c as int - '0' as int] == c;
  }

  lemma UppercaseAt(k: nat)
    requires k < 26
    ensures |UPPERCASE| == 26 && UPPERCASE[k] as int == 'A' as int + k
  {
    assert k < 9 ==> "ABCDEFGHI"[k] as int == 'A' as int + k;
    assert 9 <= k < 18 ==> "JKLMNOPQR"[k - 9] as int == 'A' as int + k;
    assert 18 <= k ==> "STUVWXYZ"[k - 18] as int == 'A' as int + k;
  }

  lemma LowercaseAt(k: nat)
    requires k < 26
    ensures |LOWERCASE| == 26 && LOWERCASE[k] as int == 'a' as int + k
  {
    assert k < 9 ==> "abcdefghi"[k] as int == 'a' as int + k;
    assert 9 <= k < 18 ==> "jklmnopqr"[k - 9] as int == 'a' as int + k;
    assert 18 <= k ==> "stuvwxyz"[k - 18] as int == 'a' as int + k;
  }

  lemma DecimalAt(k: nat)
    requires k < 10
    ensures |DECIMALS| == 10 && DECIMALS[k] as int == '0' as int + k
  {
  }
}
