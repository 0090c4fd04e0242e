/** Normalising serialized SD-JWT tokens: segments separated by tildes, with an
    optional key binding JWT at the end (section 4 of RFC 9901). */
module SdJwtToken {
  import opened Wrappers
  import opened Strings

  /** The last segment of a token. */
  function LastSegment(token: string): string {
    var segments := Split(token, '~');
    segments[|segments| - 1]
  }

  /** The last segment has three dotted parts, as a JWT does. */
  predicate EndsInJwt(token: string) {
    |Split(LastSegment(token), '.')| == 3
  }

  /** Adds the final tilde that legacy credentials lack. */
  function FixLegacyCredentialSdJwt(token: string): string {
    if EndsWith(token, "~") then token
    else if EndsInJwt(token) then token
    else token + "~"
  }

  /** The part before the first tilde, which is hashed; without a tilde the
      hashing throws. */
  function HashedPrefix(credential: string): Option<string> {
    var n := IndexOf(credential, '~');
    if n == |credential| then None else Some(credential[..n])
  }

  /** The token of a presentation: what `present` discloses of the normalised
      credential, followed by the key binding JWT over it. */
  function PrepareVpToken(credential: string, present: string -> string, signKeyBinding: string -> string): string {
    var vp := present(FixLegacyCredentialSdJwt(credential));
    vp + signKeyBinding(vp)
  }

  // ------------------------------------------------------------------- proofs

  function Dots(s: string): nat {
    if s == "" then 0 else (if s[0] == '.' then 1 else 0) + Dots(s[1..])
  }

  lemma {:induction false} PartsByDots(s: string)
    ensures |Split(s, '.')| == Dots(s) + 1
  {
    if s != "" {
      PartsByDots(s[1..]);
    }
  }

  lemma LastSegmentIs(front: string, last: string)
    requires '~' !in last
    ensures LastSegment(front + "~" + last) == last && LastSegment(last) == last
  {
    SplitAround(front, '~', last);
    SplitOfPlain(last, '~');
    assert front + "~" + last == front + ['~'] + last;
  }

  lemma EndsInTilde(front: string, last: string)
    requires '~' !in last
    ensures EndsWith(front + "~" + last, "~") <==> last == ""
    ensures !EndsWith(last, "~")
  {
    var token := front + "~" + last;
    if last == "" {
      assert token[|token| - 1..] == "~";
    } else {
      assert token[|token| - 1..][0] == last[|last| - 1];
      assert last[|last| - 1..][0] == last[|last| - 1];
    }
  }

  /** Which tokens are changed, told from the characters: one whose last segment
      is not empty and has other than two dots gains a tilde; one with two dots or
      with an empty last segment after a tilde is left alone. */
  lemma TildeAdded(front: string, last: string)
    requires '~' !in last
    ensures FixLegacyCredentialSdJwt(front + "~" + last)
         == if last == "" || Dots(last) == 2 then front + "~" + last else front + "~" + last + "~"
    ensures FixLegacyCredentialSdJwt(last) == if Dots(last) == 2 then last else last + "~"
  {
    PartsByDots(last);
    LastSegmentIs(front, last);
    EndsInTilde(front, last);
  }

  /** The hashed prefix is what stands before the first tilde. */
  lemma HashedPrefixIs(credential: string, prefix: string)
    ensures HashedPrefix(credential) == Some(prefix)
       <==> '~' !in prefix && exists rest :: credential == prefix + ['~'] + rest
  {
    var n := IndexOf(credential, '~');
    if n < |credential| {
      assert credential == credential[..n] + ['~'] + credential[n + 1..];
    }
    if rest :| '~' !in prefix && credential == prefix + ['~'] + rest {
      PrefixBeforeTilde(prefix, rest);
    }
  }

  /** The normaliser changes no segment; at most it adds an empty last one. */
  lemma SegmentsKept(token: string)
    ensures Split(FixLegacyCredentialSdJwt(token), '~')
         == Split(token, '~') + if EndsWith(token, "~") || EndsInJwt(token) then [] else [""]
  {
    if !EndsWith(token, "~") && !EndsInJwt(token) {
      SplitAround(token, '~', "");
      assert token + ['~'] + "" == token + "~";
      SplitOfPlain("", '~');
    }
  }

  /** Normalising twice is normalising once. */
  lemma NormaliserIsIdempotent(token: string)
    ensures FixLegacyCredentialSdJwt(FixLegacyCredentialSdJwt(token)) == FixLegacyCredentialSdJwt(token)
  {
    AppendedTilde(token);
  }

  lemma AppendedTilde(token: string)
    ensures EndsWith(token + "~", "~")
  {
    assert (token + "~")[|token|..] == "~";
  }

  /** A normalised token ends in a tilde or in a JWT. It ends in a tilde exactly
      when the token did or its last segment is not a JWT, so a bare JWT without
      disclosures is left without one. */
  lemma NormalisedEnd(token: string)
    ensures var fixed := FixLegacyCredentialSdJwt(token);
            && (EndsWith(fixed, "~") || EndsInJwt(fixed))
            && (EndsWith(fixed, "~") <==> EndsWith(token, "~") || !EndsInJwt(token))
  {
    AppendedTilde(token);
  }

  lemma PrefixBeforeTilde(prefix: string, rest: string)
    requires '~' !in prefix
    ensures HashedPrefix(prefix + ['~'] + rest) == Some(prefix)
  {
    FirstSeparator(prefix, '~', rest);
    assert (prefix + ['~'] + rest)[..|prefix|] == prefix;
  }

  lemma EndingTilde(token: string)
    requires EndsWith(token, "~")
    ensures '~' in token
  {
    assert token[|token| - 1..][0] == '~';
  }

  /** The hashed prefix of a credential with a tilde is untouched; one without
      gets a hashed prefix, itself, exactly when it is not a bare JWT. */
  lemma HashedPrefixKept(token: string)
    ensures HashedPrefix(token).Some? ==> HashedPrefix(FixLegacyCredentialSdJwt(token)) == HashedPrefix(token)
    ensures HashedPrefix(token).None? ==>
              HashedPrefix(FixLegacyCredentialSdJwt(token)) == if EndsInJwt(token) then None else Some(token)
  {
    var n := IndexOf(token, '~');
    if n < |token| {
      var prefix, rest := token[..n], token[n + 1..];
      assert token == prefix + ['~'] + rest;
      assert token + "~" == prefix + ['~'] + (rest + "~");
      PrefixBeforeTilde(prefix, rest + "~");
    } else {
      assert '~' !in token;
      PrefixBeforeTilde(token, "");
      assert token + ['~'] + "" == token + "~";
      if EndsWith(token, "~") {
        EndingTilde(token);
      }
    }
  }

  /** A bare JWT: the normaliser leaves it, and nothing of it can be hashed. */
  lemma BareJwt()
    ensures FixLegacyCredentialSdJwt("a.b.c") == "a.b.c"
    ensures HashedPrefix("a.b.c") == None
  {
    SplitOfPlain("a.b.c", '~');
    SplitAround("a", '.', "b.c");
    SplitAround("b", '.', "c");
    SplitOfPlain("a", '.');
    SplitOfPlain("b", '.');
    SplitOfPlain("c", '.');
    assert "a.b.c" == "a" + ['.'] + "b.c" && "b.c" == "b" + ['.'] + "c";
    HashedPrefixKept("a.b.c");
  }

  /** Appending a key binding JWT to a presentation that ends in a tilde yields a
      token that the normaliser leaves alone, whose last segment is that JWT and
      whose other segments are the presentation's. */
  lemma VpTokenIsNormalised(credential: string, present: string -> string, signKeyBinding: string -> string)
    requires var vp := present(FixLegacyCredentialSdJwt(credential));
             && EndsWith(vp, "~")
             && '~' !in signKeyBinding(vp) && |Split(signKeyBinding(vp), '.')| == 3
    ensures var vp := present(FixLegacyCredentialSdJwt(credential));
            var token := PrepareVpToken(credential, present, signKeyBinding);
            var segments := Split(vp, '~');
            && FixLegacyCredentialSdJwt(token) == token
            && segments[|segments| - 1] == ""
            && Split(token, '~') == segments[..|segments| - 1] + [signKeyBinding(vp)]
  {
    var vp := present(FixLegacyCredentialSdJwt(credential));
    BoundPresentation(vp[..|vp| - 1], signKeyBinding(vp));
    assert vp == vp[..|vp| - 1] + "~";
  }

  lemma BoundPresentation(body: string, kb: string)
    requires '~' !in kb
    ensures Split(body + "~", '~') == Split(body, '~') + [""]
    ensures Split(body + "~" + kb, '~') == Split(body, '~') + [kb]
    ensures LastSegment(body + "~" + kb) == kb
  {
    assert body + "~" == body + ['~'] + "" && body + "~" + kb == body + ['~'] + kb;
    SplitAround(body, '~', "");
    SplitAround(body, '~', kb);
    SplitOfPlain("", '~');
    SplitOfPlain(kb, '~');
  }
}
