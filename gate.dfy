/** The page gate at the top of content.js: the extension runs only on a profile page
    `/profiles.php?<id>` or `/profiles.php?<id>&1`, where `<id>` is a positive integer
    written without a leading zero. */
module Gate {
  import opened Text
  import opened Numbers

  /** The lower case of one character: `toLowerCase` restricted to ASCII letters. */
  function LowerChar(c: char): char {
    if 'A' <= c <= 'Z' then (c as int + 32) as char else c
  }

  function Lower(s: string): string {
    seq(|s|, i requires 0 <= i < |s| => LowerChar(s[i]))
  }

  /** `s.endsWith(x)`. */
  predicate EndsWith(s: string, x: string) {
    |x| <= |s| && s[|s| - |x|..] == x
  }

  /** `url.search` without its leading "?". */
  function Query(search: string): string {
    if |search| > 0 && search[0] == '?' then search[1..] else search
  }

  /** The whole string matches `^[1-9]\d*$`. */
  predicate IsId(q: string) {
    q != [] && '1' <= q[0] <= '9' && AllDigits(q[1..])
  }

  /** The whole string matches `^[1-9]\d*&1$`. */
  predicate IsIdAndOne(q: string) {
    EndsWith(q, "&1") && IsId(q[..|q| - 2])
  }

  /** `allowed` (content.js:6-13) for a page with the given `pathname` and `search`. */
  predicate Allowed(pathname: string, search: string) {
    var path := Lower(pathname);
    var isProfiles := EndsWith(path, "/profiles.php") || path == "/profiles.php";
    var q := Query(search);
    isProfiles && (IsId(q) || IsIdAndOne(q))
  }

  /** A canonical digit string (no leading zero) is the decimal text of its positive value. */
  lemma {:induction false} DecimalOfId(q: string)
    requires IsId(q)
    ensures DigitsValue(q) > 0 && Decimal(DigitsValue(q)) == q
    decreases |q|
  {
    assert AllDigits(q) by {
      assert forall i :: 1 <= i < |q| ==> q[1..][i - 1] == q[i];
    }
    var init := q[..|q| - 1];
    var c := q[|q| - 1];
    var v := DigitsValue(q);
    if |q| == 1 {
      assert init == [] && DigitsValue(init) == 0;
      assert v == DigitValue(c);
      assert DigitChar(DigitValue(c)) == c;
    } else {
      assert IsId(init) by {
        assert init[1..] == q[1..][..|q| - 2];
      }
      DecimalOfId(init);
      assert v == DigitsValue(init) * 10 + DigitValue(c);
      assert v / 10 == DigitsValue(init) && v % 10 == DigitValue(c);
      assert DigitChar(DigitValue(c)) == c;
      assert q == init + [c];
    }
  }

  /** The decimal text of a positive number matches `^[1-9]\d*$`. */
  lemma DecimalIsId(n: nat)
    requires n > 0
    ensures IsId(Decimal(n))
  {
    var d := Decimal(n);
    assert forall i :: 0 <= i < |d| - 1 ==> d[1..][i] == d[i + 1];
  }

  /** The gate, stated without regular expressions: the lower-cased path ends with
      "/profiles.php" and the query is the decimal text of a positive number, alone or
      followed by exactly "&1". */
  lemma AllowedIff(pathname: string, search: string)
    ensures Allowed(pathname, search) <==>
      EndsWith(Lower(pathname), "/profiles.php") &&
      exists id: nat :: id > 0 && (Query(search) == Decimal(id) || Query(search) == Decimal(id) + "&1")
  {
    var q := Query(search);
    if IsId(q) {
      DecimalOfId(q);
    } else if IsIdAndOne(q) {
      DecimalOfId(q[..|q| - 2]);
      assert q == q[..|q| - 2] + "&1";
    }
    if exists id: nat :: id > 0 && (q == Decimal(id) || q == Decimal(id) + "&1") {
      var id: nat :| id > 0 && (q == Decimal(id) || q == Decimal(id) + "&1");
      DecimalIsId(id);
      if q == Decimal(id) + "&1" {
        assert q[..|q| - 2] == Decimal(id);
      }
    }
  }
}
