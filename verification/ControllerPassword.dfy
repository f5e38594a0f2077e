// How the controller reads a configured password (src/controller.c): plain, or an encrypted one of the form
// $id$salt$key.
module ControllerPassword {
  import opened Common

  /** struct rspamd_controller_pbkdf, as far as the check depends on it. */
  datatype Kdf = Kdf(id: nat, saltLen: nat, keyLen: nat)

  /** pbkdf_list. */
  const KDFS := [Kdf(1, 20, 32), Kdf(2, 20, 32)]

  /** The cryptography: base32 decoding and the key derivation, as functions. */
  datatype Crypto = Crypto(decode: string -> Option<seq<nat>>, derive: (nat, string, seq<nat>) -> seq<nat>)

  predicate IsDigit(c: char) {
    '0' <= c <= '9'
  }

  predicate IsAlnum(c: char) {
    IsDigit(c) || 'a' <= c <= 'z' || 'A' <= c <= 'Z'
  }

  /** How many characters from the front satisfy a predicate. */
  function Span(p: char -> bool, s: string): (n: nat)
    ensures n <= |s| && (forall k | 0 <= k < n :: p(s[k])) && (n < |s| ==> !p(s[n]))
  {
    if s == [] || !p(s[0]) then 0 else 1 + Span(p, s[1..])
  }

  /** A prefix that satisfies the predicate and stops where it fails is as long as the span. */
  lemma {:induction false} SpanIs(p: char -> bool, s: string, n: nat)
    requires n <= |s| && (forall k | 0 <= k < n :: p(s[k])) && (n < |s| ==> !p(s[n]))
    ensures n == Span(p, s)
  {
    if n > 0 {
      SpanIs(p, s[1..], n - 1);
    }
  }

  /** strtoul on a string of digits. */
  function Number(digits: string): nat
    requires forall k | 0 <= k < |digits| :: IsDigit(digits[k])
  {
    if digits == [] then 0
    else
      assert IsDigit(digits[|digits| - 1]);
      10 * Number(digits[..|digits| - 1]) + (digits[|digits| - 1] as int - '0' as int)
  }

  /** The key derivation an encrypted password names, if it is one. */
  function KdfOf(check: string): Option<Kdf> {
    if check == [] || check[0] != '$' then None
    else
      var size := Span(IsDigit, check[1..]);
      if size == 0 then None
      else
        var id := Number(check[1..1 + size]);
        if id == 1 then Some(KDFS[0]) else if id == 2 then Some(KDFS[1]) else None
  }

  /** The alphanumeric component at an offset, if there is one. */
  function Component(check: string, skip: nat): Option<string> {
    if skip >= |check| || Span(IsAlnum, check[skip..]) == 0 then None
    else Some(check[skip..skip + Span(IsAlnum, check[skip..])])
  }

  /** rspamd_is_encrypted_password. */
  method IsEncrypted(check: string) returns (kdf: Option<Kdf>)
    ensures kdf == KdfOf(check)
  {
    kdf := None;
    if |check| > 0 && check[0] == '$' {
      var size := 0;
      while 1 + size < |check| && IsDigit(check[1 + size])
        invariant 1 + size <= |check| && forall k | 1 <= k < 1 + size :: IsDigit(check[k])
      {
        size := size + 1;
      }
      SpanIs(IsDigit, check[1..], size);
      if size > 0 {
        var id := Number(check[1..1 + size]);
        var i := 0;
        while i < |KDFS|
          invariant i <= |KDFS| && kdf == None && forall k | 0 <= k < i :: KDFS[k].id != id
        {
          if KDFS[i].id == id {
            kdf := Some(KDFS[i]);
            break;
          }
          i := i + 1;
        }
      }
    }
  }

  /** rspamd_encrypted_password_get_str. */
  method GetStr(check: string, skip: nat) returns (r: Option<string>)
    ensures r == Component(check, skip)
  {
    if skip >= |check| {
      return None;
    }
    var size := 0;
    while skip + size < |check| && IsAlnum(check[skip + size])
      invariant skip + size <= |check| && forall k | skip <= k < skip + size :: IsAlnum(check[k])
    {
      size := size + 1;
    }
    SpanIs(IsAlnum, check[skip..], size);
    r := if size > 0 then Some(check[skip..skip + size]) else None;
  }

  /** Where the key component starts, after the salt. */
  function KeyAt(salt: Option<string>): nat {
    3 + (if salt.Some? then |salt.value| else 0) + 1
  }

  /** The derivation of a password from the salt of an encrypted one gives its key. */
  predicate Verifies(crypto: Crypto, check: string, kdf: Kdf, password: string) {
    var salt := Component(check, 3);
    var key := Component(check, KeyAt(salt));
    salt.Some? && key.Some? &&
    var saltBytes := crypto.decode(salt.value);
    var keyBytes := crypto.decode(key.value);
    && saltBytes.Some? && |saltBytes.value| == kdf.saltLen
    && keyBytes.Some? && |keyBytes.value| == kdf.keyLen
    && crypto.derive(kdf.id, password, saltBytes.value) == keyBytes.value
  }

  /** A password is the configured one. */
  predicate Matches(crypto: Crypto, check: string, password: string) {
    match KdfOf(check)
    case None => check == password
    case Some(kdf) => Verifies(crypto, check, kdf, password)
  }

  /** At most one of the passwords asked about satisfies a configured hash. */
  ghost predicate Unambiguous(crypto: Crypto, check: string, asked: set<string>) {
    forall p, q | p in asked && q in asked && Matches(crypto, check, p) && Matches(crypto, check, q) :: p == q
  }

  /** The part of rspamd_check_encrypted_password that derives a key and compares. */
  method CheckUncached(crypto: Crypto, password: string, check: string, kdf: Kdf) returns (ret: bool)
    ensures ret == Verifies(crypto, check, kdf, password)
  {
    ret := false;
    var salt := GetStr(check, 3);
    var key := GetStr(check, 3 + (if salt.Some? then |salt.value| else 0) + 1);
    if salt.Some? && key.Some? {
      var saltBytes := crypto.decode(salt.value);
      if saltBytes.None? || |saltBytes.value| != kdf.saltLen {
        return false;
      }
      var keyBytes := crypto.decode(key.value);
      if keyBytes.None? || |keyBytes.value| != kdf.keyLen {
        return false;
      }
      var local := crypto.derive(kdf.id, password, saltBytes.value);
      if local == keyBytes.value {
        ret := true;
      }
    }
  }

  // ---- What a configured hash means -----------------------------------------------------------------

  predicate Alnum(s: string) {
    s != [] && forall k | 0 <= k < |s| :: IsAlnum(s[k])
  }

  /** A hash falls into three characters for the id, a salt, one character, a key, and the rest. */
  predicate Parts(check: string, salt: string, key: string) {
    var n, m := 3 + |salt|, 3 + |salt| + 1 + |key|;
    && Alnum(salt) && Alnum(key) && m <= |check| && check[3..n] == salt && check[n + 1..m] == key
    && !IsAlnum(check[n]) && (m < |check| ==> !IsAlnum(check[m]))
  }

  lemma ComponentIs(check: string, skip: nat, part: string)
    requires Alnum(part) && skip + |part| <= |check| && check[skip..skip + |part|] == part
    requires skip + |part| < |check| ==> !IsAlnum(check[skip + |part|])
    ensures Component(check, skip) == Some(part)
  {
    var rest := check[skip..];
    forall k | 0 <= k < |part| ensures IsAlnum(rest[k]) {
      assert rest[k] == check[skip..skip + |part|][k] == part[k];
    }
    SpanIs(IsAlnum, rest, |part|);
  }

  lemma ComponentHas(check: string, skip: nat, part: string)
    requires Component(check, skip) == Some(part)
    ensures Alnum(part) && skip + |part| <= |check| && check[skip..skip + |part|] == part
    ensures skip + |part| < |check| ==> !IsAlnum(check[skip + |part|])
  {
  }

  /**
   * With a known id in front, the password must derive the decoded key from the decoded salt, and both must have
   * the lengths the id asks for.
   */
  lemma MatchesParts(crypto: Crypto, check: string, salt: string, key: string, kdf: Kdf, password: string)
    requires KdfOf(check) == Some(kdf) && Parts(check, salt, key)
    ensures Matches(crypto, check, password) <==>
              && crypto.decode(salt).Some? && |crypto.decode(salt).value| == kdf.saltLen
              && crypto.decode(key).Some? && |crypto.decode(key).value| == kdf.keyLen
              && crypto.derive(kdf.id, password, crypto.decode(salt).value) == crypto.decode(key).value
  {
    ComponentIs(check, 3, salt);
    ComponentIs(check, 3 + |salt| + 1, key);
  }

  /** One without a salt or without a key lets nobody in. */
  lemma OnlyParts(crypto: Crypto, check: string, password: string) returns (salt: string, key: string)
    requires KdfOf(check).Some? && Matches(crypto, check, password)
    ensures Parts(check, salt, key)
  {
    salt := Component(check, 3).value;
    key := Component(check, 3 + |salt| + 1).value;
    ComponentHas(check, 3, salt);
    ComponentHas(check, 3 + |salt| + 1, key);
  }

  predicate Digits(s: string) {
    s != [] && forall k | 0 <= k < |s| :: IsDigit(s[k])
  }

  lemma DigitsEnd(tail: string, digits: string, rest: string)
    requires Digits(digits) && (rest == [] || !IsDigit(rest[0])) && tail == digits + rest
    ensures Span(IsDigit, tail) == |digits|
  {
    forall k | 0 <= k < |digits| ensures IsDigit(tail[k]) {
      assert tail[k] == digits[k];
    }
    SpanIs(IsDigit, tail, |digits|);
  }

  /** The id is the whole number after the dollar sign, and only 1 and 2 are known. */
  lemma KdfNamed(check: string, digits: string, id: nat, rest: string)
    requires check == "$" + digits + rest && (rest == [] || !IsDigit(rest[0]))
    requires Digits(digits) && Number(digits) == id
    ensures KdfOf(check) == if id == 1 then Some(Kdf(1, 20, 32)) else if id == 2 then Some(Kdf(2, 20, 32)) else None
  {
    DigitsEnd(check[1..], digits, rest);
    assert check[1..1 + |digits|] == digits;
  }

  /** A hash of the form $id$salt$key. */
  function Encrypted(id: char, salt: string, key: string): string {
    ['$', id, '$'] + salt + "$" + key
  }

  lemma EncryptedParts(id: char, salt: string, key: string)
    requires (id == '1' || id == '2') && Alnum(salt) && Alnum(key)
    ensures Parts(Encrypted(id, salt, key), salt, key)
    ensures KdfOf(Encrypted(id, salt, key)) == Some(Kdf(if id == '1' then 1 else 2, 20, 32))
  {
    var check := Encrypted(id, salt, key);
    assert check[3..3 + |salt|] == salt && check[3 + |salt| + 1..] == key && check[3 + |salt|] == '$';
    assert check[1..][0] == id && check[1..][1] == '$' && check[1..2] == [id];
    SpanIs(IsDigit, check[1..], 1);
    assert Number([id]) == 10 * Number([id][..0]) + (id as int - '0' as int);
  }

  /**
   * With $id$salt$key configured, salt and key decoding to 20 and 32 bytes, exactly the passwords are right from
   * which that id's derivation makes the key out of the salt.
   */
  lemma EncryptedMatches(crypto: Crypto, id: char, salt: string, key: string, s: seq<nat>, k: seq<nat>,
      password: string)
    requires (id == '1' || id == '2') && Alnum(salt) && Alnum(key)
    requires crypto.decode(salt) == Some(s) && |s| == 20 && crypto.decode(key) == Some(k) && |k| == 32
    ensures Matches(crypto, Encrypted(id, salt, key), password) <==>
              crypto.derive(if id == '1' then 1 else 2, password, s) == k
  {
    EncryptedParts(id, salt, key);
    MatchesParts(crypto, Encrypted(id, salt, key), salt, key, Kdf(if id == '1' then 1 else 2, 20, 32), password);
  }

  /** A configured password that does not begin with a dollar sign and a known id is the password itself. */
  lemma PlainMatches(crypto: Crypto, check: string, password: string)
    requires check == [] || check[0] != '$' || (|check| > 1 && !IsDigit(check[1])) || |check| == 1
    ensures Matches(crypto, check, password) <==> password == check
  {
  }
}
