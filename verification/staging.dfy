/**
 * Staging paths for downloaded archives. The host hands out a unique
 * temporary path per call; here the n-th call of the process gets
 * `TempName(n)`, and `DownloadTgz` appends `.tgz`.
 */
module Staging {

  function DigitChar(d: nat): (c: char)
    requires d < 10
    ensures '0' <= c <= '9'
  {
    ('0' as int + d) as char
  }

  /** The decimal numeral of `n`. */
  function Digits(n: nat): (s: string)
    ensures |s| >= 1
    ensures forall i :: 0 <= i < |s| ==> '0' <= s[i] <= '9'
  {
    if n < 10 then [DigitChar(n)] else Digits(n / 10) + [DigitChar(n % 10)]
  }

  /** Distinct numbers have distinct numerals. */
  lemma {:induction false} DigitsInjective(a: nat, b: nat)
    requires Digits(a) == Digits(b)
    ensures a == b
    decreases a
  {
    if a < 10 && b < 10 {
      assert Digits(a)[0] == DigitChar(a);
    } else if a >= 10 && b >= 10 {
      var da, db := Digits(a), Digits(b);
      assert da[..|da| - 1] == Digits(a / 10);
      assert db[..|db| - 1] == Digits(b / 10);
      assert da[|da| - 1] == DigitChar(a % 10);
      assert db[|db| - 1] == DigitChar(b % 10);
      DigitsInjective(a / 10, b / 10);
    }
  }

  const TempPrefix: string := "Temp/UnityTempFile-"

  /** The unique temporary path the host hands out on its `n`-th request. */
  function TempName(n: nat): string {
    TempPrefix + Digits(n)
  }

  /** The staging path of `DownloadTgz`: a fresh temporary path with `.tgz` appended. */
  function TgzPath(n: nat): string {
    TempName(n) + ".tgz"
  }

  /** The package reference handed to the host for a staged archive. */
  function FileRef(path: string): string {
    "file:" + path
  }

  /** Every staging path ends in `.tgz`, and distinct requests never share a path. */
  lemma TgzPathSpec(a: nat, b: nat)
    ensures |TgzPath(a)| >= 4 && TgzPath(a)[|TgzPath(a)| - 4..] == ".tgz"
    ensures TgzPath(a) == TgzPath(b) <==> a == b
  {
    var pa, pb := TgzPath(a), TgzPath(b);
    assert pa[|pa| - 4..] == ".tgz";
    if pa == pb {
      assert pa[|TempPrefix|..|pa| - 4] == Digits(a);
      assert pb[|TempPrefix|..|pb| - 4] == Digits(b);
      DigitsInjective(a, b);
    }
  }

  /** Distinct staged paths give distinct package references. */
  lemma FileRefInjective(p: string, q: string)
    ensures FileRef(p) == FileRef(q) <==> p == q
  {
    if FileRef(p) == FileRef(q) {
      assert FileRef(p)[5..] == p;
      assert FileRef(q)[5..] == q;
    }
  }
}
