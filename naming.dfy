/**
 * How the upload handler turns an uploaded filename into a storage key and a
 * public URL (Functions/savePhoto.js, lines 27-29 and 37). Strings are
 * sequences of characters; every character stands for one code unit.
 */
module Naming {
  import opened Wrappers

  /** The characters `[A-Za-z0-9_.-]` that survive sanitisation. */
  predicate Allowed(c: char) {
    ('a' <= c <= 'z') || ('A' <= c <= 'Z') || ('0' <= c <= '9') || c == '_' || c == '.' || c == '-'
  }

  predicate AllAllowed(s: string) {
    forall i :: 0 <= i < |s| ==> Allowed(s[i])
  }

  /** One character after `replace(/[^a-zA-Z0-9_.-]/g, '_')`. */
  function Clean(c: char): (d: char)
    ensures Allowed(d)
    ensures d == c <==> Allowed(c)
    ensures d == '.' <==> c == '.'
  {
    if Allowed(c) then c else '_'
  }

  /** The sanitised filename: every character outside the allowed set becomes `_`. */
  function Sanitize(s: string): (r: string)
    ensures |r| == |s|
  {
    if s == [] then [] else [Clean(s[0])] + Sanitize(s[1..])
  }

  /** Sanitisation works position by position: each character is replaced by its cleaned form and stays where it was. */
  lemma {:induction false} SanitizeAt(s: string, i: nat)
    requires i < |s|
    ensures Sanitize(s)[i] == Clean(s[i])
  {
    if i > 0 {
      SanitizeAt(s[1..], i - 1);
    }
  }

  /** The sanitised filename is over the allowed alphabet, and it equals the input exactly when the input already was. */
  lemma SanitizeAllowed(s: string)
    ensures AllAllowed(Sanitize(s))
    ensures Sanitize(s) == s <==> AllAllowed(s)
  {
    var r := Sanitize(s);
    forall i | 0 <= i < |s| ensures Allowed(r[i]) && (r[i] == s[i] <==> Allowed(s[i])) {
      SanitizeAt(s, i);
    }
  }

  lemma SanitizeIdempotent(s: string)
    ensures Sanitize(Sanitize(s)) == Sanitize(s)
  {
    SanitizeAllowed(s);
    SanitizeAllowed(Sanitize(s));
  }

  lemma {:induction false} SanitizeAppend(a: string, b: string)
    ensures Sanitize(a + b) == Sanitize(a) + Sanitize(b)
  {
    if a == [] {
      assert a + b == b;
    } else {
      assert (a + b)[0] == a[0];
      assert (a + b)[1..] == a[1..] + b;
      SanitizeAppend(a[1..], b);
    }
  }

  /** Sanitisation neither introduces nor removes dots. */
  lemma {:induction false} SanitizeKeepsDots(s: string)
    ensures '.' in Sanitize(s) <==> '.' in s
  {
    if s != [] {
      SanitizeKeepsDots(s[1..]);
      assert s == [s[0]] + s[1..];
    }
  }

  /** Where the text after the last `.` begins: just past that dot, or 0 when there is none. */
  function LastDotEnd(s: string): (start: nat)
    ensures start <= |s|
    ensures start == 0 || s[start - 1] == '.'
    ensures forall j :: start <= j < |s| ==> s[j] != '.'
  {
    if s == [] then 0
    else if s[|s| - 1] == '.' then |s|
    else
      var init := s[..|s| - 1];
      assert forall j :: 0 <= j < |init| ==> init[j] == s[j];
      LastDotEnd(init)
  }

  /**
   * `split('.').pop()`: the text after the last `.`; the whole string when it
   * has no `.`, and the empty string when it ends with `.`.
   */
  function Extension(s: string): (r: string)
    ensures |r| <= |s| && r == s[|s| - |r|..]
    ensures '.' !in r
    ensures r == s || s[|s| - |r| - 1] == '.'
  {
    s[LastDotEnd(s)..]
  }

  /** Past a final dot (or from the start), a dot-free tail leaves the last dot where it was. */
  lemma {:induction false} LastDotEndAfter(p: string, e: string)
    requires '.' !in e
    requires p == [] || p[|p| - 1] == '.'
    ensures LastDotEnd(p + e) == |p|
    decreases |e|
  {
    if e == [] {
      assert p + e == p;
    } else {
      var s, init := p + e, e[..|e| - 1];
      assert s[|s| - 1] == e[|e| - 1];
      assert s[..|s| - 1] == p + init;
      LastDotEndAfter(p, init);
    }
  }

  /** Whatever follows a last `.` (or the start) and holds no `.` is the extension. */
  lemma ExtensionUnique(p: string, e: string)
    requires '.' !in e
    requires p == [] || p[|p| - 1] == '.'
    ensures Extension(p + e) == e
  {
    LastDotEndAfter(p, e);
    assert (p + e)[|p|..] == e;
  }

  lemma ExtensionWithoutDot(s: string)
    requires '.' !in s
    ensures Extension(s) == s
  {
  }

  /** The dot is the only character sanitisation never introduces nor removes, so the extension of the sanitised name is the sanitised extension. */
  lemma ExtensionOfSanitized(s: string)
    ensures Extension(Sanitize(s)) == Sanitize(Extension(s))
  {
    var e := Extension(s);
    var p := s[..|s| - |e|];
    assert s == p + e;
    SanitizeAppend(p, e);
    SanitizeKeepsDots(e);
    if p != [] {
      SanitizeAt(p, |p| - 1);
    }
    ExtensionUnique(Sanitize(p), Sanitize(e));
  }

  /** The storage key `${sanitizedFilename}-${uuid}.${extension}`; the extension comes from the raw filename. */
  function StorageKey(filename: string, uuid: string): (key: string)
    ensures |key| == |filename| + |uuid| + |Extension(filename)| + 2
  {
    Sanitize(filename) + "-" + uuid + "." + Extension(filename)
  }

  lemma Assoc4(a: string, b: string, c: string, d: string)
    ensures a + b + c + d == a + (b + (c + d))
  {
  }

  lemma Regroup(a: string, b: string, c: string, d: string)
    ensures a + b + c + d == (a + b) + (c + d)
  {
  }

  lemma PrefixOfConcat(a: string, b: string)
    ensures (a + b)[..|a|] == a
  {
  }

  /** The key starts with the sanitised filename and a dash, and keeps the original extension. */
  lemma KeyLayout(filename: string, uuid: string)
    ensures var key := StorageKey(filename, uuid);
      && key[..|filename| + 1] == Sanitize(filename) + "-"
      && Extension(key) == Extension(filename)
  {
    var pre := Sanitize(filename) + "-";
    Assoc4(pre, uuid, ".", Extension(filename));
    PrefixOfConcat(pre, uuid + ("." + Extension(filename)));
    ExtensionUnique(pre + uuid + ".", Extension(filename));
  }

  /** For one filename, the key is the same exactly when the uuid is. */
  lemma KeyInjectiveInUuid(filename: string, u1: string, u2: string)
    ensures StorageKey(filename, u1) == StorageKey(filename, u2) <==> u1 == u2
  {
    var pre, e := Sanitize(filename) + "-", Extension(filename);
    var k1, k2 := StorageKey(filename, u1), StorageKey(filename, u2);
    Assoc4(pre, u1, ".", e);
    Assoc4(pre, u2, ".", e);
    if k1 == k2 {
      assert |u1| == |u2|;
      PrefixOfConcat(u1, "." + e);
      PrefixOfConcat(u2, "." + e);
      assert u1 + ("." + e) == k1[|pre|..] == u2 + ("." + e);
    }
  }

  /**
   * With uuids of one fixed length (a v4 uuid is always 36 characters), the
   * key determines the uuid whatever the filenames: keys made with different
   * uuids never collide, even for different filenames.
   */
  lemma KeysDistinctAcrossFilenames(f1: string, u1: string, f2: string, u2: string)
    requires |u1| == |u2|
    ensures StorageKey(f1, u1) == StorageKey(f2, u2) ==> u1 == u2
  {
    var k1, k2 := StorageKey(f1, u1), StorageKey(f2, u2);
    if k1 == k2 {
      KeyLayout(f1, u1);
      KeyLayout(f2, u2);
      var e := Extension(k1);
      var p1, p2 := Sanitize(f1) + "-" + u1, Sanitize(f2) + "-" + u2;
      PrefixOfConcat(p1, "." + e);
      PrefixOfConcat(p2, "." + e);
      Regroup(Sanitize(f1) + "-", u1, ".", e);
      Regroup(Sanitize(f2) + "-", u2, ".", e);
      assert p1 == k1[..|k1| - |e| - 1] == p2;
      assert u1 == p1[|p1| - |u1|..];
      assert u2 == p2[|p2| - |u2|..];
    }
  }

  /** Sanitisation is not injective: uniqueness of keys rests on the uuid alone. */
  lemma SanitizeCollides()
    ensures Sanitize("a b.jpg") == Sanitize("a_b.jpg")
    ensures StorageKey("a b.jpg", "u") == StorageKey("a_b.jpg", "u")
  {
    var raw, clean := "a b.jpg", "a_b.jpg";
    forall i | 0 <= i < |raw| ensures Sanitize(raw)[i] == clean[i] {
      SanitizeAt(raw, i);
    }
    assert Sanitize(raw) == clean;
    SanitizeAllowed(clean);
    assert AllAllowed(clean);
    ExtensionUnique("a b.", "jpg");
    ExtensionUnique("a_b.", "jpg");
  }

  /** The text of a uuid v4: 36 characters, 32 lower-case hex digits and 4 dashes at positions 8, 13, 18 and 23. */
  predicate IsUuid(u: string) {
    && |u| == 36
    && forall i :: 0 <= i < 36 ==>
         if i == 8 || i == 13 || i == 18 || i == 23 then u[i] == '-'
         else ('0' <= u[i] <= '9') || ('a' <= u[i] <= 'f')
  }

  /**
   * With a uuid v4, the key is over the allowed alphabet exactly when the raw
   * extension is: the extension is not sanitised, so a filename such as
   * `photo.j pg` yields a key holding a space.
   */
  lemma KeyAllowedIff(filename: string, uuid: string)
    requires IsUuid(uuid)
    ensures AllAllowed(StorageKey(filename, uuid)) <==> AllAllowed(Extension(filename))
  {
    var s := Sanitize(filename);
    SanitizeAllowed(filename);
    assert AllAllowed(uuid);
    AllowedConcat(s, "-");
    AllowedConcat(s + "-", uuid);
    AllowedConcat(s + "-" + uuid, ".");
    AllowedConcat(s + "-" + uuid + ".", Extension(filename));
  }

  lemma AllowedConcat(a: string, b: string)
    ensures AllAllowed(a + b) <==> AllAllowed(a) && AllAllowed(b)
  {
    if AllAllowed(a + b) {
      forall i | 0 <= i < |a| ensures Allowed(a[i]) {
        assert a[i] == (a + b)[i];
      }
      forall i | 0 <= i < |b| ensures Allowed(b[i]) {
        assert b[i] == (a + b)[|a| + i];
      }
    }
  }

  lemma UnsafeKeyExample(uuid: string)
    requires IsUuid(uuid)
    ensures !AllAllowed(StorageKey("photo.j pg", uuid))
  {
    ExtensionUnique("photo.", "j pg");
    assert !Allowed(Extension("photo.j pg")[1]);
    KeyAllowedIff("photo.j pg", uuid);
  }

  const UrlHost := ".s3.amazonaws.com/"

  /** The public URL `https://${BUCKET_NAME}.s3.amazonaws.com/${key}`. */
  function ImageUrl(bucket: string, key: string): (url: string)
    ensures |url| == |bucket| + |key| + 26
  {
    "https://" + bucket + UrlHost + key
  }

  /** The key a URL of the given bucket points at, if it is such a URL. */
  function KeyOfUrl(bucket: string, url: string): (key: Option<string>)
    ensures key.Some? ==> |key.value| + |bucket| + 26 == |url|
  {
    var prefix := "https://" + bucket + UrlHost;
    if |prefix| <= |url| && url[..|prefix|] == prefix then Some(url[|prefix|..]) else None
  }

  /** The URL determines the key: decoding it gives the key back, and no URL of the bucket has two keys. */
  lemma {:induction false} UrlRoundTrip(bucket: string, key: string)
    ensures KeyOfUrl(bucket, ImageUrl(bucket, key)) == Some(key)
  {
    var prefix := "https://" + bucket + UrlHost;
    var url := ImageUrl(bucket, key);
    assert url == prefix + key;
    assert url[..|prefix|] == prefix;
    assert url[|prefix|..] == key;
  }

  lemma UrlInjective(bucket: string, k1: string, k2: string)
    requires k1 != k2
    ensures ImageUrl(bucket, k1) != ImageUrl(bucket, k2)
  {
    UrlRoundTrip(bucket, k1);
    UrlRoundTrip(bucket, k2);
  }

  lemma {:induction false} UrlOnlyFromImageUrl(bucket: string, url: string)
    requires KeyOfUrl(bucket, url).Some?
    ensures ImageUrl(bucket, KeyOfUrl(bucket, url).value) == url
  {
    var prefix := "https://" + bucket + UrlHost;
    assert url == url[..|prefix|] + url[|prefix|..];
  }
}
