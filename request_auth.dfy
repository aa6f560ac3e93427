/**
 * Request-signature checking for requests launched from the VK platform,
 * and the dependency that resolves the calling group.
 *
 * The launch parameters arrive as a query string. The model starts from the
 * parsed key/value pairs, in order, as `parse_qsl(..., keep_blank_values=True)`
 * yields them. The platform signs the parameters whose names start with
 * "vk_": sorted by name, URL-encoded as `k=v&...`, HMAC-SHA256 keyed with
 * the application secret, base 64 encoded (section 4 of RFC 4648), one
 * trailing "=" dropped and "+" and "/" replaced by "-" and "_" (the
 * alphabet of section 5 of RFC 4648). The request carries the result as
 * the parameter "sign".
 *
 * HMAC-SHA256 and the per-component escaping of `urlencode` are foreign
 * primitives; they are passed in as functions (`Primitives`).
 */
module RequestAuth {
  import opened Wrappers
  import Base64
  import Groups

  type Query = seq<(string, string)>

  /** An HMAC-SHA256 digest: 32 bytes. */
  type Digest = d: seq<Base64.byte> | |d| == 32 witness seq(32, i => 0)

  /** `quote`: how `urlencode` escapes one key or value (`quote_plus`).
      `mac`: HMAC-SHA256 of the UTF-8 text under the application secret. */
  datatype Primitives = Primitives(quote: string -> string, mac: string -> Digest)

  // ---------------------------------------------------------------------
  // dict(parse_qsl(...)): the last value of a repeated key wins

  function ToDict(q: Query): (d: map<string, string>)
    ensures forall i :: 0 <= i < |q| ==> q[i].0 in d
    ensures q != [] ==> d[q[|q| - 1].0] == q[|q| - 1].1
  {
    if q == [] then map[]
    else
      var init := q[..|q| - 1];
      assert forall i :: 0 <= i < |init| ==> init[i] == q[i];
      ToDict(init)[q[|q| - 1].0 := q[|q| - 1].1]
  }

  /** A key is in the dictionary iff some pair carries it. */
  lemma {:induction false} DictKeys(q: Query, k: string)
    ensures k in ToDict(q) <==> exists i :: 0 <= i < |q| && q[i].0 == k
  {
    if q != [] {
      var init := q[..|q| - 1];
      DictKeys(init, k);
      if exists i :: 0 <= i < |q| && q[i].0 == k {
        var i :| 0 <= i < |q| && q[i].0 == k;
        if i < |q| - 1 {
          assert init[i] == q[i];
        }
      }
      if exists i :: 0 <= i < |init| && init[i].0 == k {
        var i :| 0 <= i < |init| && init[i].0 == k;
        assert q[i] == init[i];
      }
    }
  }

  /** The value kept for a key is the one of its last occurrence. */
  lemma {:induction false} LastValueWins(q: Query, i: nat)
    requires i < |q|
    requires forall j :: i < j < |q| ==> q[j].0 != q[i].0
    ensures q[i].0 in ToDict(q) && ToDict(q)[q[i].0] == q[i].1
  {
    if i < |q| - 1 {
      var init := q[..|q| - 1];
      assert init[i] == q[i];
      forall j | i < j < |init| ensures init[j].0 != init[i].0 {
        assert init[j] == q[j];
      }
      LastValueWins(init, i);
    }
  }

  // ---------------------------------------------------------------------
  // Python's ordering of str: code point by code point, a prefix first

  predicate LessEq(a: string, b: string)
  {
    |a| == 0 || (|b| > 0 && (a[0] < b[0] || (a[0] == b[0] && LessEq(a[1..], b[1..]))))
  }

  lemma {:induction false} LessEqReflexive(a: string)
    ensures LessEq(a, a)
  {
    if |a| > 0 {
      LessEqReflexive(a[1..]);
    }
  }

  lemma {:induction false} LessEqTotal(a: string, b: string)
    ensures LessEq(a, b) || LessEq(b, a)
  {
    if |a| > 0 && |b| > 0 && a[0] == b[0] {
      LessEqTotal(a[1..], b[1..]);
    }
  }

  lemma {:induction false} LessEqAntisymmetric(a: string, b: string)
    requires LessEq(a, b) && LessEq(b, a)
    ensures a == b
  {
    if |a| > 0 && |b| > 0 {
      LessEqAntisymmetric(a[1..], b[1..]);
      assert a == [a[0]] + a[1..] && b == [b[0]] + b[1..];
    }
  }

  lemma {:induction false} LessEqTransitive(a: string, b: string, c: string)
    requires LessEq(a, b) && LessEq(b, c)
    ensures LessEq(a, c)
  {
    if |a| > 0 && |b| > 0 && |c| > 0 && a[0] == b[0] && b[0] == c[0] {
      LessEqTransitive(a[1..], b[1..], c[1..]);
    }
  }

  /** Strictly increasing: sorted and without repeats, as the keys of a
      dictionary come out of `sorted`. */
  ghost predicate StrictlySorted(s: seq<string>)
  {
    forall i, j :: 0 <= i < j < |s| ==> s[i] != s[j] && LessEq(s[i], s[j])
  }

  /** Puts a key in its place in a strictly sorted list; a key already there
      is not repeated. */
  function Insert(k: string, s: seq<string>): (r: seq<string>)
    requires StrictlySorted(s)
    ensures StrictlySorted(r)
    ensures forall x :: x in r <==> x == k || x in s
  {
    if s == [] then [k]
    else if k == s[0] then s
    else if LessEq(k, s[0]) then
      assert forall j :: 0 < j < |s| ==> LessEq(k, s[j]) && k != s[j] by {
        forall j | 0 < j < |s| ensures LessEq(k, s[j]) && k != s[j] {
          LessEqTransitive(k, s[0], s[j]);
          if k == s[j] {
            LessEqAntisymmetric(s[0], k);
          }
        }
      }
      [k] + s
    else
      var rest := Insert(k, s[1..]);
      LessEqTotal(k, s[0]);
      assert forall j :: 0 <= j < |rest| ==> rest[j] != s[0] && LessEq(s[0], rest[j]) by {
        forall j | 0 <= j < |rest| ensures rest[j] != s[0] && LessEq(s[0], rest[j]) {
          if rest[j] != k {
            assert rest[j] in s[1..];
            var m :| 0 <= m < |s[1..]| && s[1..][m] == rest[j];
            assert s[m + 1] == rest[j];
          }
        }
      }
      [s[0]] + rest
  }

  predicate IsVkKey(k: string)
  {
    |k| >= 3 && k[..3] == "vk_"
  }

  /** `sorted(filter(lambda key: key.startswith("vk_"), query_params))`:
      the distinct "vk_" keys of the query, in increasing order. */
  function SortedVkKeys(q: Query): (ks: seq<string>)
    ensures StrictlySorted(ks)
    ensures forall k :: k in ks <==> IsVkKey(k) && k in ToDict(q)
  {
    if q == [] then []
    else
      var rest := SortedVkKeys(q[..|q| - 1]);
      if IsVkKey(q[|q| - 1].0) then Insert(q[|q| - 1].0, rest) else rest
  }

  /** Two strictly sorted lists with the same members are the same list:
      the sorted key list depends only on the set of keys. */
  lemma {:induction false} SortedUnique(a: seq<string>, b: seq<string>)
    requires StrictlySorted(a) && StrictlySorted(b)
    requires forall x :: x in a <==> x in b
    ensures a == b
    decreases |a|
  {
    assert b != [] ==> b[0] in b;
    if a != [] {
      assert b != [] by {
        assert a[0] in b;
      }
      assert b[0] in a && a[0] in b;
      var i :| 0 <= i < |a| && a[i] == b[0];
      var j :| 0 <= j < |b| && b[j] == a[0];
      assert LessEq(a[0], b[0]) by {
        if i > 0 {
          assert LessEq(a[0], a[i]);
        } else {
          LessEqReflexive(a[0]);
        }
      }
      assert LessEq(b[0], a[0]) by {
        if j > 0 {
          assert LessEq(b[0], b[j]);
        } else {
          LessEqReflexive(b[0]);
        }
      }
      LessEqAntisymmetric(a[0], b[0]);
      forall x ensures x in a[1..] <==> x in b[1..] {
        if x in a[1..] {
          var m :| 0 <= m < |a[1..]| && a[1..][m] == x;
          assert a[m + 1] == x && x != a[0];
          assert x in b;
          var n :| 0 <= n < |b| && b[n] == x;
          assert n != 0;
          assert b[1..][n - 1] == x;
        }
        if x in b[1..] {
          var m :| 0 <= m < |b[1..]| && b[1..][m] == x;
          assert b[m + 1] == x && x != b[0];
          assert x in a;
          var n :| 0 <= n < |a| && a[n] == x;
          assert n != 0;
          assert a[1..][n - 1] == x;
        }
      }
      assert StrictlySorted(a[1..]) by {
        forall p, r | 0 <= p < r < |a[1..]| ensures a[1..][p] != a[1..][r] && LessEq(a[1..][p], a[1..][r]) {
          assert a[1..][p] == a[p + 1] && a[1..][r] == a[r + 1];
        }
      }
      assert StrictlySorted(b[1..]) by {
        forall p, r | 0 <= p < r < |b[1..]| ensures b[1..][p] != b[1..][r] && LessEq(b[1..][p], b[1..][r]) {
          assert b[1..][p] == b[p + 1] && b[1..][r] == b[r + 1];
        }
      }
      SortedUnique(a[1..], b[1..]);
      assert a == [a[0]] + a[1..] && b == [b[0]] + b[1..];
    }
  }

  // ---------------------------------------------------------------------
  // The signed text and the expected signature

  /** `{k: query_params[k] for k in vk_subset}`, in key order. */
  function SignedPairs(q: Query): (ps: seq<(string, string)>)
    ensures forall i :: 0 <= i < |ps| ==> IsVkKey(ps[i].0) && ps[i].0 in ToDict(q) && ps[i].1 == ToDict(q)[ps[i].0]
    ensures forall i, j :: 0 <= i < j < |ps| ==> ps[i].0 != ps[j].0 && LessEq(ps[i].0, ps[j].0)
    ensures forall k :: IsVkKey(k) && k in ToDict(q) ==> exists i :: 0 <= i < |ps| && ps[i].0 == k
  {
    var d, ks := ToDict(q), SortedVkKeys(q);
    var ps := seq(|ks|, i requires 0 <= i < |ks| => (ks[i], d[ks[i]]));
    assert forall k :: k in ks ==> exists i :: 0 <= i < |ps| && ps[i].0 == k by {
      forall k | k in ks ensures exists i :: 0 <= i < |ps| && ps[i].0 == k {
        var i :| 0 <= i < |ks| && ks[i] == k;
        assert ps[i].0 == k;
      }
    }
    ps
  }

  /** One escaped `k=v` field. */
  function Field(quote: string -> string, p: (string, string)): string
  {
    quote(p.0) + "=" + quote(p.1)
  }

  /** `urlencode(pairs, doseq=True)` for string values: the escaped fields
      joined by "&", so the text starts with the first pair's field and ends
      with the last pair's, and is empty only without pairs. */
  function UrlEncode(quote: string -> string, ps: seq<(string, string)>): (r: string)
    ensures |r| == 0 <==> ps == []
    ensures ps != [] ==> Field(quote, ps[0]) <= r
    ensures ps != [] ==>
      var last := Field(quote, ps[|ps| - 1]);
      |last| <= |r| && r[|r| - |last|..] == last
  {
    if ps == [] then ""
    else if |ps| == 1 then Field(quote, ps[0])
    else
      var rest := UrlEncode(quote, ps[1..]);
      var r := Field(quote, ps[0]) + "&" + rest;
      assert ps[1..][|ps[1..]| - 1] == ps[|ps| - 1];
      assert r[|r| - |Field(quote, ps[|ps| - 1])|..] == rest[|rest| - |Field(quote, ps[|ps| - 1])|..];
      r
  }

  /** `b64encode(HMAC(secret, urlencode(ordered), sha256).digest())`. */
  function HashCode(p: Primitives, q: Query): (h: string)
    ensures |h| == 44 && h[43] == Base64.Pad
    ensures forall i :: 0 <= i < 43 ==> Base64.IsAlphabetChar(h[i])
  {
    var digest := p.mac(UrlEncode(p.quote, SignedPairs(q)));
    Base64.DigestEncoding(digest);
    Base64.Encode(digest)
  }

  /** `if hash_code[-1] == "=": hash_code = hash_code[:-1]`: at most one
      trailing "=" goes. */
  function StripOnePad(h: string): (r: string)
    requires |h| > 0
    ensures h[|h| - 1] == Base64.Pad ==> r + [Base64.Pad] == h
    ensures h[|h| - 1] != Base64.Pad ==> r == h
  {
    if h[|h| - 1] == Base64.Pad then h[..|h| - 1] else h
  }

  /** Only one "=" goes: text ending in "==" keeps the first of them. */
  lemma StripOnePadKeepsSecondPad(h: string)
    requires |h| >= 2 && h[|h| - 2] == Base64.Pad && h[|h| - 1] == Base64.Pad
    ensures var r := StripOnePad(h);
      |r| == |h| - 1 && r[|r| - 1] == Base64.Pad
  {
  }

  /** `s.replace(a, b)` for single characters. */
  function Replace(s: string, a: char, b: char): (r: string)
    ensures |r| == |s|
    ensures forall i :: 0 <= i < |s| ==> r[i] == if s[i] == a then b else s[i]
  {
    seq(|s|, i requires 0 <= i < |s| => if s[i] == a then b else s[i])
  }

  /** The characters of Table 2 of RFC 4648 ("URL and filename safe"). */
  predicate IsUrlSafeChar(c: char)
  {
    ('A' <= c <= 'Z') || ('a' <= c <= 'z') || ('0' <= c <= '9') || c == '-' || c == '_'
  }

  /** `fixed_hash`: the signature the request must carry. It is the 43
      significant characters of the base 64 text, in the URL-safe alphabet,
      so it holds neither "+" nor "/" and no padding. */
  function FixedHash(p: Primitives, q: Query): (r: string)
    ensures |r| == 43
    ensures forall i :: 0 <= i < |r| ==> IsUrlSafeChar(r[i]) && r[i] != '+' && r[i] != '/'
  {
    Replace(Replace(StripOnePad(HashCode(p, q)), '+', '-'), '/', '_')
  }

  /** `check_valid_token`: the token is valid iff it carries a non-empty
      "sign" (the last one, when repeated) equal to the fixed hash. */
  function CheckValidToken(p: Primitives, q: Query): (valid: bool)
    ensures valid <==> "sign" in ToDict(q) && ToDict(q)["sign"] == FixedHash(p, q)
  {
    var d := ToDict(q);
    if "sign" !in d || d["sign"] == "" then false
    else d["sign"] == FixedHash(p, q)
  }

  // ---------------------------------------------------------------------
  // What the signature covers

  /** A missing or empty "sign" fails whatever the secret and the other
      parameters are. */
  lemma MissingSignFails(p: Primitives, q: Query)
    requires "sign" !in ToDict(q) || ToDict(q)["sign"] == ""
    ensures !CheckValidToken(p, q)
  {
  }

  /** Two queries whose dictionaries agree on every "vk_" key are signed
      identically: nothing but the "vk_" parameters (and their last values)
      enters the hash. */
  lemma SameVkParamsSameHash(p: Primitives, q1: Query, q2: Query)
    requires forall k :: IsVkKey(k) ==> (k in ToDict(q1) <==> k in ToDict(q2))
    requires forall k :: IsVkKey(k) && k in ToDict(q1) ==> ToDict(q1)[k] == ToDict(q2)[k]
    ensures SignedPairs(q1) == SignedPairs(q2)
    ensures FixedHash(p, q1) == FixedHash(p, q2)
  {
    SortedUnique(SortedVkKeys(q1), SortedVkKeys(q2));
  }

  /** Adding or changing a parameter that does not start with "vk_" (such
      as "sign" itself) leaves the expected signature as it was. */
  lemma OtherParamsNotSigned(p: Primitives, q: Query, k: string, v: string)
    requires !IsVkKey(k)
    ensures FixedHash(p, q + [(k, v)]) == FixedHash(p, q)
  {
    var q' := q + [(k, v)];
    assert q'[..|q'| - 1] == q;
    SameVkParamsSameHash(p, q', q);
  }

  /** Of two values for the same key, the later one is signed and compared;
      the earlier one has no effect at all. */
  lemma LaterDuplicateWins(p: Primitives, q: Query, k: string, v1: string, v2: string)
    ensures ToDict(q + [(k, v1), (k, v2)]) == ToDict(q + [(k, v2)])
    ensures FixedHash(p, q + [(k, v1), (k, v2)]) == FixedHash(p, q + [(k, v2)])
    ensures CheckValidToken(p, q + [(k, v1), (k, v2)]) == CheckValidToken(p, q + [(k, v2)])
  {
    var q1, q2 := q + [(k, v1), (k, v2)], q + [(k, v2)];
    assert q1[..|q1| - 1] == q + [(k, v1)] && (q + [(k, v1)])[..|q|] == q;
    assert q2[..|q2| - 1] == q;
    SameVkParamsSameHash(p, q1, q2);
  }

  /** On text in the standard alphabet, the two replacements can be undone. */
  lemma {:induction false} UrlSafeReplaceInjective(s1: string, s2: string)
    requires |s1| == |s2|
    requires forall i :: 0 <= i < |s1| ==> Base64.IsAlphabetChar(s1[i]) && Base64.IsAlphabetChar(s2[i])
    requires Replace(Replace(s1, '+', '-'), '/', '_') == Replace(Replace(s2, '+', '-'), '/', '_')
    ensures s1 == s2
  {
    var f1, f2 := Replace(Replace(s1, '+', '-'), '/', '_'), Replace(Replace(s2, '+', '-'), '/', '_');
    forall i | 0 <= i < |s1| ensures s1[i] == s2[i] {
      assert f1[i] == f2[i];
    }
  }

  /** `StripOnePad` then the alphabet change lose nothing: the signature
      determines the base 64 text, hence (by `Base64.DecodeEncode`) the
      digest. Different digests never share a signature. */
  lemma SignatureDeterminesDigest(p: Primitives, q1: Query, q2: Query)
    requires FixedHash(p, q1) == FixedHash(p, q2)
    ensures p.mac(UrlEncode(p.quote, SignedPairs(q1))) == p.mac(UrlEncode(p.quote, SignedPairs(q2)))
  {
    var h1, h2 := HashCode(p, q1), HashCode(p, q2);
    var s1, s2 := StripOnePad(h1), StripOnePad(h2);
    assert s1 == h1[..43] && s2 == h2[..43];
    UrlSafeReplaceInjective(s1, s2);
    assert h1 == s1 + [Base64.Pad] && h2 == s2 + [Base64.Pad];
    var d1 := p.mac(UrlEncode(p.quote, SignedPairs(q1)));
    var d2 := p.mac(UrlEncode(p.quote, SignedPairs(q2)));
    assert h1 == Base64.Encode(d1) && h2 == Base64.Encode(d2);
    Base64.DecodeEncode(d1);
    Base64.DecodeEncode(d2);
  }

  // ---------------------------------------------------------------------
  // verification_group

  /** What the dependency produces: HTTP 400, `None`, or the group. */
  datatype Verdict = BadRequest | NoGroup | GroupFound(group: Groups.Group)

  /** `verification_group`. The 401 exception for an invalid token is built
      but never raised, so `tokenIsValid` does not influence the result; a
      missing or empty "vk_group_id" is a 400; otherwise the group with that
      platform id, if any. */
  function VerificationGroup(tokenIsValid: bool, q: Query, groups: seq<Groups.Group>): (r: Verdict)
    ensures r.BadRequest? <==> "vk_group_id" !in ToDict(q) || ToDict(q)["vk_group_id"] == ""
    ensures r.NoGroup? <==>
      && "vk_group_id" in ToDict(q) && ToDict(q)["vk_group_id"] != ""
      && forall j :: 0 <= j < |groups| ==> groups[j].vkId != ToDict(q)["vk_group_id"]
    ensures r.GroupFound? ==> r.group in groups && r.group.vkId == ToDict(q)["vk_group_id"]
  {
    var d := ToDict(q);
    if "vk_group_id" !in d || d["vk_group_id"] == "" then BadRequest
    else
      match Groups.GroupByVkId(groups, d["vk_group_id"])
      case None => NoGroup
      case Some(g) => GroupFound(g)
  }

  /** An invalid signature does not stop the dependency. */
  lemma InvalidTokenNotRejected(q: Query, groups: seq<Groups.Group>)
    ensures VerificationGroup(false, q, groups) == VerificationGroup(true, q, groups)
  {
  }
}
