/**
 * Identifier derivation: the name is salted (name first, then the fixed salt),
 * the UTF-8 bytes of the salted name are hashed with SHA-256, and the 32-byte
 * digest is written in lowercase hexadecimal. The page for a name links its
 * image as `/monster/<identifier>`, which is the only place where the name and
 * the image key meet.
 */
module Identity {
  import opened Wrappers
  import Base16
  import Utf8

  /** A SHA-256 digest: exactly 32 bytes. */
  type Digest = s: seq<byte> | |s| == 32 witness seq(32, _ => 0)

  /**
   * SHA-256 itself belongs to a foreign library; the model takes it as a
   * parameter and knows only that it maps any bytes to 32 bytes.
   */
  type Sha256 = seq<byte> -> Digest

  /** The process-wide salt, appended to every name. */
  const SALT: string := "UNIQUE_SAL"

  /** The name served when the form has not been submitted. */
  const DEFAULT_NAME: string := "Joe Bloggs"

  /** The route under which images are served and linked. */
  const MONSTER_PREFIX: string := "/monster/"

  /** The ASCII bytes of the salt, U+0055 'U' first. */
  const SALT_BYTES: seq<byte> := [0x55, 0x4E, 0x49, 0x51, 0x55, 0x45, 0x5F, 0x53, 0x41, 0x4C]

  /** The string that is hashed: the name, then the salt. */
  function SaltedName(name: string): (s: string)
    ensures |s| == |name| + |SALT|
    ensures s[..|name|] == name && s[|name|..] == SALT
  {
    name + SALT
  }

  /** The SHA-256 digest of `t`, in lowercase hexadecimal. */
  function CalculateHash(sha256: Sha256, t: seq<byte>): (id: string)
    ensures |id| == 64
    ensures Base16.IsLowerHex(id)
    ensures Base16.Decode(id) == Some(sha256(t))
  {
    Base16.DecodeEncode(sha256(t));
    Base16.Encode(sha256(t))
  }

  /** The identifier of a name: the hash of the UTF-8 bytes of the salted name. */
  function Derive(sha256: Sha256, name: string): (id: string)
    ensures |id| == 64 && Base16.IsLowerHex(id)
    ensures Base16.Decode(id) == Some(sha256(Utf8.Encode(name) + SALT_BYTES))
  {
    SaltedBytes(name);
    CalculateHash(sha256, Utf8.Encode(SaltedName(name)))
  }

  /** The bytes handed to SHA-256 are the name's UTF-8 bytes followed by the salt's. */
  lemma SaltedBytes(name: string)
    ensures Utf8.Encode(SaltedName(name)) == Utf8.Encode(name) + SALT_BYTES
  {
    Utf8.EncodeConcat(name, SALT);
    SaltEncoding();
  }

  /** The salt is ASCII, so its UTF-8 bytes are its character codes. */
  lemma SaltEncoding()
    ensures Utf8.Encode(SALT) == SALT_BYTES
  {
  }

  /** Character pair `i` of the identifier is the high then the low nibble of digest byte `i`. */
  lemma DeriveDigits(sha256: Sha256, name: string, i: nat)
    requires i < 32
    ensures var d := sha256(Utf8.Encode(name) + SALT_BYTES);
      && Derive(sha256, name)[2 * i] == Base16.Digit(Base16.HighNibble(d[i]))
      && Derive(sha256, name)[2 * i + 1] == Base16.Digit(Base16.LowNibble(d[i]))
  {
    SaltedBytes(name);
    Base16.EncodeAt(sha256(Utf8.Encode(name) + SALT_BYTES), i);
  }

  /** Two names share an identifier exactly when SHA-256 gives their salted bytes the same digest. */
  lemma DeriveSameIffSameDigest(sha256: Sha256, a: string, b: string)
    ensures Derive(sha256, a) == Derive(sha256, b)
        <==> sha256(Utf8.Encode(a) + SALT_BYTES) == sha256(Utf8.Encode(b) + SALT_BYTES)
  {
    SaltedBytes(a);
    SaltedBytes(b);
    Base16.EncodeInjective(sha256(Utf8.Encode(a) + SALT_BYTES), sha256(Utf8.Encode(b) + SALT_BYTES));
  }

  /** Salting and UTF-8 lose nothing: distinct names give distinct hashed inputs. */
  lemma SaltedInputInjective(a: string, b: string)
    ensures Utf8.Encode(a) + SALT_BYTES == Utf8.Encode(b) + SALT_BYTES <==> a == b
  {
    var ta, tb := Utf8.Encode(a) + SALT_BYTES, Utf8.Encode(b) + SALT_BYTES;
    if ta == tb {
      assert Utf8.Encode(a) == ta[..|ta| - |SALT_BYTES|];
      assert Utf8.Encode(b) == tb[..|tb| - |SALT_BYTES|];
      Utf8.EncodeInjective(a, b);
    }
  }

  /**
   * Distinct names have distinct identifiers unless SHA-256 collides on
   * their two salted inputs: the only way two names can share an image is
   * a hash collision.
   */
  lemma DeriveInjective(sha256: Sha256, a: string, b: string)
    requires sha256(Utf8.Encode(a) + SALT_BYTES) == sha256(Utf8.Encode(b) + SALT_BYTES)
         ==> Utf8.Encode(a) + SALT_BYTES == Utf8.Encode(b) + SALT_BYTES
    ensures Derive(sha256, a) == Derive(sha256, b) <==> a == b
  {
    DeriveSameIffSameDigest(sha256, a, b);
    SaltedInputInjective(a, b);
  }

  /** The default page hashes exactly the bytes of "Joe BloggsUNIQUE_SAL". */
  lemma DefaultNameInput()
    ensures Utf8.Encode(SaltedName(DEFAULT_NAME))
         == [0x4A, 0x6F, 0x65, 0x20, 0x42, 0x6C, 0x6F, 0x67, 0x67, 0x73] + SALT_BYTES
  {
    SaltedBytes(DEFAULT_NAME);
    Utf8.EncodeAscii(DEFAULT_NAME);
  }

  /** The two values the page template is filled with. */
  datatype Page = Page(formValue: string, imageSrc: string)

  /** The page for `name`: the name echoed in the form, and the image link. */
  function CookResponse(sha256: Sha256, name: string): (p: Page)
    ensures p.formValue == name
    ensures |p.imageSrc| == |MONSTER_PREFIX| + 64
    ensures p.imageSrc[..|MONSTER_PREFIX|] == MONSTER_PREFIX
    ensures Base16.Decode(p.imageSrc[|MONSTER_PREFIX|..]) == Some(sha256(Utf8.Encode(name) + SALT_BYTES))
  {
    var id := Derive(sha256, name);
    assert (MONSTER_PREFIX + id)[|MONSTER_PREFIX|..] == id;
    Page(name, MONSTER_PREFIX + id)
  }

  /**
   * The route `/monster/:name`: a path made of the prefix and one non-empty
   * segment without a slash yields that segment.
   */
  function MatchMonsterRoute(path: string): (r: Option<string>)
    ensures r.Some? <==> |path| > |MONSTER_PREFIX| && path[..|MONSTER_PREFIX|] == MONSTER_PREFIX
                         && '/' !in path[|MONSTER_PREFIX|..]
    ensures r.Some? ==> path == MONSTER_PREFIX + r.value
  {
    var n := |MONSTER_PREFIX|;
    if |path| > n && path[..n] == MONSTER_PREFIX && '/' !in path[n..] then Some(path[n..])
    else None
  }

  /** Following the page's image link hands the image handler the derived identifier. */
  lemma ImageLinkCarriesIdentifier(sha256: Sha256, name: string)
    ensures MatchMonsterRoute(CookResponse(sha256, name).imageSrc) == Some(Derive(sha256, name))
  {
  }
}
