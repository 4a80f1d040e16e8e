/**
 * Normalisation and validation of the two formatted fields of a user:
 * the Indian mobile number and the PAN (permanent account number).
 */
module Formats {
  import opened Wrappers

  predicate IsDigit(c: char) { '0' <= c <= '9' }
  predicate IsUpper(c: char) { 'A' <= c <= 'Z' }

  // ---------------------------------------------------------------- mobile

  /**
   * The anchored replacement of `^(\+91|0)` by the empty string: one leading
   * "+91" is removed, or else one leading "0". Nothing else is touched.
   */
  function StripPrefix(s: string): (r: string)
    ensures s == r || s == "0" + r || s == "+91" + r
    ensures |s| >= 3 && s[..3] == "+91" ==> s == "+91" + r
    ensures !(|s| >= 3 && s[..3] == "+91") && |s| >= 1 && s[0] == '0' ==> s == "0" + r
    ensures !(|s| >= 3 && s[..3] == "+91") && !(|s| >= 1 && s[0] == '0') ==> r == s
  {
    if |s| >= 3 && s[..3] == "+91" then s[3..]
    else if |s| >= 1 && s[0] == '0' then s[1..]
    else s
  }

  /** Stripping undoes either prefix: "+91" is tried first, and "0" followed by anything is never "+91". */
  lemma StripPrefixUndoes(x: string)
    ensures StripPrefix("+91" + x) == x
    ensures StripPrefix("0" + x) == x
  {
    assert ("+91" + x)[..3] == "+91" && ("+91" + x)[3..] == x;
    assert ("0" + x)[0] == '0' && ("0" + x)[1..] == x;
  }

  /** `^[6-9]\d{9}$`: exactly ten ASCII digits, the first one 6 to 9. */
  predicate ValidMobile(s: string) {
    |s| == 10 && '6' <= s[0] <= '9' && forall i :: 1 <= i < 10 ==> IsDigit(s[i])
  }

  /** The cleaned number when it is valid, `None` when create must reject it. */
  function NormalizeMobile(raw: string): (r: Option<string>)
    ensures r.Some? ==> ValidMobile(r.value)
    ensures r.Some? ==> raw == r.value || raw == "0" + r.value || raw == "+91" + r.value
  {
    var cleaned := StripPrefix(raw);
    if ValidMobile(cleaned) then Some(cleaned) else None
  }

  /**
   * The accepted inputs are exactly a valid number, optionally preceded by a
   * single "0" or a single "+91", and each normalises to that number.
   */
  lemma NormalizeMobileExactly(raw: string, v: string)
    ensures NormalizeMobile(raw) == Some(v)
        <==> ValidMobile(v) && (raw == v || raw == "0" + v || raw == "+91" + v)
  {
    if ValidMobile(v) {
      if raw == v {
        assert raw[0] != '0' && raw[0] != '+';
      } else if raw == "0" + v {
        assert raw[0] == '0' && raw[1..] == v;
      } else if raw == "+91" + v {
        assert raw[..3] == "+91" && raw[3..] == v;
      }
    }
  }

  /** At most one prefix is stripped: a doubled or mixed prefix is rejected. */
  lemma OnlyOnePrefixStripped(v: string, p: string, q: string)
    requires ValidMobile(v)
    requires (p == "0" || p == "+91") && (q == "0" || q == "+91")
    ensures NormalizeMobile(p + q + v) == None
  {
    assert p + q + v == p + (q + v);
    assert (q + v)[0] == q[0];
    StripsOnce(p, q + v);
  }

  /** Stripping a known prefix from a string that starts with "0" or "+" leaves no valid number. */
  lemma StripsOnce(prefix: string, rest: string)
    requires prefix == "0" || prefix == "+91"
    requires |rest| > 0 && (rest[0] == '0' || rest[0] == '+')
    ensures StripPrefix(prefix + rest) == rest
    ensures NormalizeMobile(prefix + rest) == None
  {
    var s := prefix + rest;
    if prefix == "0" {
      assert s[0] == '0' && s[1..] == rest;
      assert |s| >= 3 ==> s[..3] != "+91" by { assert |s| >= 3 ==> s[..3][0] == '0'; }
    } else {
      assert s[..3] == "+91" && s[3..] == rest;
    }
  }

  // ---------------------------------------------------------------- PAN

  /**
   * The uppercase form of one character under String.prototype.toUpperCase.
   * Besides ASCII a-z, the characters whose uppercase form is made only of
   * ASCII letters are mapped: dotless i, long s, sharp s and the Latin
   * ligatures U+FB00-U+FB06 (some of them expand to two or three letters).
   * Every other character is kept: its uppercase form, whatever it is,
   * contains a character that no PAN may contain.
   */
  function UpperChar(c: char): string
  {
    if 'a' <= c <= 'z' then [(c as int - 32) as char]
    else if c == '\U{0131}' then "I"
    else if c == '\U{017F}' then "S"
    else if c == '\U{00DF}' then "SS"
    else if c == '\U{FB00}' then "FF"
    else if c == '\U{FB01}' then "FI"
    else if c == '\U{FB02}' then "FL"
    else if c == '\U{FB03}' then "FFI"
    else if c == '\U{FB04}' then "FFL"
    else if c == '\U{FB05}' || c == '\U{FB06}' then "ST"
    else [c]
  }

  /** toUpperCase on a whole string, character by character. */
  function ToUpper(s: string): string
  {
    if s == [] then [] else UpperChar(s[0]) + ToUpper(s[1..])
  }

  /** `^[A-Z]{5}[0-9]{4}[A-Z]{1}$`. */
  predicate ValidPan(p: string) {
    && |p| == 10
    && (forall i :: 0 <= i < 5 ==> IsUpper(p[i]))
    && (forall i :: 5 <= i < 9 ==> IsDigit(p[i]))
    && IsUpper(p[9])
  }

  /** The uppercased PAN when it is valid, `None` when create must reject it. */
  function NormalizePan(raw: string): (r: Option<string>)
    ensures r.Some? ==> ValidPan(r.value)
    ensures r.Some? ==> ToUpper(r.value) == r.value && ToUpper(raw) == r.value
  {
    var upper := ToUpper(raw);
    ToUpperIdempotent(raw);
    if ValidPan(upper) then Some(upper) else None
  }

  lemma {:induction false} ToUpperAppend(a: string, b: string)
    ensures ToUpper(a + b) == ToUpper(a) + ToUpper(b)
  {
    if a == [] {
      assert a + b == b;
    } else {
      assert (a + b)[0] == a[0] && (a + b)[1..] == a[1..] + b;
      ToUpperAppend(a[1..], b);
    }
  }

  /** Uppercasing an uppercased character changes nothing. */
  lemma UpperCharStable(c: char)
    ensures ToUpper(UpperChar(c)) == UpperChar(c)
  {
    var u := UpperChar(c);
    if |u| == 1 {
      assert ToUpper(u) == UpperChar(u[0]) + ToUpper([]);
    } else if |u| == 2 {
      assert ToUpper(u) == UpperChar(u[0]) + ToUpper(u[1..]);
      assert ToUpper(u[1..]) == UpperChar(u[1]) + ToUpper([]);
    } else {
      assert ToUpper(u) == UpperChar(u[0]) + ToUpper(u[1..]);
      assert ToUpper(u[1..]) == UpperChar(u[1]) + ToUpper(u[2..]);
      assert ToUpper(u[2..]) == UpperChar(u[2]) + ToUpper([]);
    }
  }

  /** toUpperCase is idempotent: a PAN is checked and stored in a stable form. */
  lemma {:induction false} ToUpperIdempotent(s: string)
    ensures ToUpper(ToUpper(s)) == ToUpper(s)
  {
    if s != [] {
      ToUpperAppend(UpperChar(s[0]), ToUpper(s[1..]));
      UpperCharStable(s[0]);
      ToUpperIdempotent(s[1..]);
    }
  }

  /** Strings of uppercase letters and digits are their own uppercase form. */
  lemma {:induction false} ToUpperKeepsUpperAndDigits(s: string)
    requires forall i :: 0 <= i < |s| ==> IsUpper(s[i]) || IsDigit(s[i])
    ensures ToUpper(s) == s
  {
    if s != [] {
      ToUpperKeepsUpperAndDigits(s[1..]);
    }
  }

  /** A PAN already in canonical form is accepted and stored unchanged. */
  lemma ValidPanAccepted(p: string)
    requires ValidPan(p)
    ensures NormalizePan(p) == Some(p)
  {
    ToUpperKeepsUpperAndDigits(p);
  }

  /** The PAN check is case-insensitive: uppercasing first changes no outcome. */
  lemma PanIgnoresCase(raw: string)
    ensures NormalizePan(ToUpper(raw)) == NormalizePan(raw)
  {
    ToUpperIdempotent(raw);
  }

  /** A raw PAN whose uppercase form is a valid PAN is accepted as that form. */
  lemma PanOf(raw: string, u: string)
    requires ToUpper(raw) == u && ValidPan(u)
    ensures NormalizePan(raw) == Some(u)
  {
  }

  /** Where every character uppercases to a single character, ToUpper works position by position. */
  lemma {:induction false} ToUpperPointwise(s: string, u: string)
    requires |s| == |u|
    requires forall i :: 0 <= i < |s| ==> UpperChar(s[i]) == [u[i]]
    ensures ToUpper(s) == u
  {
    if s != [] {
      ToUpperPointwise(s[1..], u[1..]);
      assert u == [u[0]] + u[1..];
    }
  }
}

/** The worked examples of the two formats, as the service documents them. */
module FormatExamples {
  import opened Wrappers
  import opened Formats

  /** The documented examples of the mobile rule: each accepted spelling of one number. */
  lemma MobileCountryCodeExample()
    ensures NormalizeMobile("+919876543210") == Some("9876543210")
  {
    NormalizeMobileExactly("+919876543210", "9876543210");
  }

  lemma MobileTrunkPrefixExample()
    ensures NormalizeMobile("09876543210") == Some("9876543210")
  {
    NormalizeMobileExactly("09876543210", "9876543210");
  }

  lemma MobileBareExample()
    ensures NormalizeMobile("9876543210") == Some("9876543210")
  {
    NormalizeMobileExactly("9876543210", "9876543210");
  }

  /** A number starting with 5 is rejected. */
  lemma MobileRejectExample()
    ensures NormalizeMobile("5876543210") == None
  {
  }

  /**
   * The documented examples of the PAN rule. The input is a parameter fixed
   * by the precondition, which keeps the verifier from evaluating the
   * uppercasing of the literal on its own.
   */
  lemma PanLowercaseExample(raw: string)
    requires raw == "abcde1234f"
    ensures NormalizePan(raw) == Some("ABCDE1234F")
  {
    ToUpperPointwise(raw, "ABCDE1234F");
    PanOf(raw, "ABCDE1234F");
  }

  lemma PanTrailingDigitExample()
    ensures NormalizePan("ABCDE12345") == None
  {
    ToUpperKeepsUpperAndDigits("ABCDE12345");
    assert !IsUpper("ABCDE12345"[9]);
  }

  /** A sharp s expands to "SS", so a nine-character input can be a valid PAN. */
  lemma PanSharpSExample(raw: string)
    requires raw == "\U{00DF}cde1234f"
    ensures NormalizePan(raw) == Some("SSCDE1234F")
  {
    SharpSUpper(raw);
    PanOf(raw, "SSCDE1234F");
  }

  lemma SharpSUpper(s: string)
    requires s == "\U{00DF}cde1234f"
    ensures ToUpper(s) == "SSCDE1234F"
  {
    ToUpperPointwise(s[1..], "CDE1234F");
  }
}
