/**
 * Where a user's task list lives: `obscure` hashes an identifier and
 * `get_path_variables` builds `./guilds/<h(guild)>/<h(user)>.tasks`.
 *
 * SHA-256 is not modelled: it is the parameter `hash`, a function from the
 * text `str(id)` to its hexadecimal digest. What the addressing scheme needs
 * of it is stated by `IsDigestFunction` and assumed only where needed.
 */
module Addressing {
  import opened Decimal

  type Hash = string -> string

  predicate IsHexDigit(c: char) { ('0' <= c <= '9') || ('a' <= c <= 'f') }

  /** What `hexdigest()` of SHA-256 returns: 64 lower-case hexadecimal digits. */
  predicate IsHexDigest(h: string) {
    |h| == 64 && forall i | 0 <= i < |h| :: IsHexDigit(h[i])
  }

  /** Discord ids are snowflakes: unsigned 64-bit integers. */
  const SnowflakeBound: int := 0x1_0000_0000_0000_0000

  predicate IsSnowflake(id: int) { 0 <= id < SnowflakeBound }

  /**
   * The properties of SHA-256 the store relies on: a 64-digit hex output, and
   * no collision between the decimal texts of two different snowflakes.
   */
  ghost predicate IsDigestFunction(hash: Hash) {
    && (forall s :: IsHexDigest(hash(s)))
    && (forall a, b | IsSnowflake(a) && IsSnowflake(b) && Obscure(hash, a) == Obscure(hash, b) :: a == b)
  }

  /** `obscure(obj)`: the digest of the identifier's decimal text. */
  function Obscure(hash: Hash, id: int): string {
    hash(IntToString(id))
  }

  const GuildsRoot: string := "./guilds"

  /** `guild_dir`: the guild's directory, directly under the store root. */
  function GuildDir(hash: Hash, guild: int): (d: string)
    ensures |d| >= |GuildsRoot| + 1 && d[..|GuildsRoot| + 1] == GuildsRoot + "/"
    ensures IsDigestFunction(hash) ==> |d| == |GuildsRoot| + 1 + 64 && '/' !in d[|GuildsRoot| + 1..]
  {
    var token := Obscure(hash, guild);
    assert (GuildsRoot + "/" + token)[|GuildsRoot| + 1..] == token;
    assert IsDigestFunction(hash) ==> IsHexDigest(token);
    GuildsRoot + "/" + token
  }

  /** `filename`: the user's file name inside a guild directory. */
  function FileName(hash: Hash, user: int): (f: string)
    ensures |f| >= 6 && f[|f| - 6..] == ".tasks"
    ensures IsDigestFunction(hash) ==> |f| == 64 + 6 && '/' !in f
  {
    var token := Obscure(hash, user);
    assert IsDigestFunction(hash) ==> IsHexDigest(token);
    token + ".tasks"
  }

  datatype PathVariables = PathVariables(guildDir: string, fileName: string, filePath: string)

  /** `get_path_variables(ctx)` for the guild and author of the invoking message. */
  function GetPathVariables(hash: Hash, guild: int, user: int): (v: PathVariables)
    ensures v.filePath == v.guildDir + "/" + v.fileName
    ensures v.guildDir == GuildDir(hash, guild) && v.fileName == FileName(hash, user)
  {
    var guildDir := GuildDir(hash, guild);
    var fileName := FileName(hash, user);
    PathVariables(guildDir, fileName, guildDir + "/" + fileName)
  }

  /** `filepath`: the full path of the user's task file. */
  function FilePath(hash: Hash, guild: int, user: int): (p: string)
    ensures |p| > |GuildDir(hash, guild)| + 1 && p[..|GuildDir(hash, guild)| + 1] == GuildDir(hash, guild) + "/"
    ensures p[|GuildDir(hash, guild)| + 1..] == FileName(hash, user)
  {
    GetPathVariables(hash, guild, user).filePath
  }

  /**
   * The token of an identifier is a 64-digit hex digest, and no two
   * snowflakes share one: `IsDigestFunction` read at one pair of ids.
   */
  lemma ObscureInjective(hash: Hash, a: int, b: int)
    requires IsDigestFunction(hash) && IsSnowflake(a) && IsSnowflake(b)
    ensures IsHexDigest(Obscure(hash, a))
    ensures Obscure(hash, a) == Obscure(hash, b) <==> a == b
  {
  }

  /** Every guild's directory name is distinct from every file path (it is shorter). */
  lemma GuildDirIsNotAFile(hash: Hash, guild: int, g: int, u: int)
    requires IsDigestFunction(hash)
    ensures GuildDir(hash, guild) != FilePath(hash, g, u)
  {
    assert |GuildDir(hash, guild)| == 9 + 64;
    assert |FilePath(hash, g, u)| == 9 + 64 + 1 + 64 + 6;
  }

  /** The directory of a guild is determined by the guild and by nothing else. */
  lemma GuildDirInjective(hash: Hash, g1: int, g2: int)
    requires IsDigestFunction(hash) && IsSnowflake(g1) && IsSnowflake(g2)
    ensures GuildDir(hash, g1) == GuildDir(hash, g2) <==> g1 == g2
  {
    var d1, d2 := GuildDir(hash, g1), GuildDir(hash, g2);
    ObscureInjective(hash, g1, g2);
    if d1 == d2 {
      assert d1[9..] == Obscure(hash, g1);
      assert d2[9..] == Obscure(hash, g2);
    }
  }

  /**
   * Assuming SHA-256 does not collide on snowflakes, two different (guild,
   * user) pairs are given two different files.
   */
  lemma FilePathInjective(hash: Hash, g1: int, u1: int, g2: int, u2: int)
    requires IsDigestFunction(hash)
    requires IsSnowflake(g1) && IsSnowflake(u1) && IsSnowflake(g2) && IsSnowflake(u2)
    ensures FilePath(hash, g1, u1) == FilePath(hash, g2, u2) <==> g1 == g2 && u1 == u2
  {
    var p1, p2 := FilePath(hash, g1, u1), FilePath(hash, g2, u2);
    var a1, b1 := Obscure(hash, g1), Obscure(hash, u1);
    var a2, b2 := Obscure(hash, g2), Obscure(hash, u2);
    assert p1 == GuildsRoot + "/" + a1 + "/" + (b1 + ".tasks");
    assert p2 == GuildsRoot + "/" + a2 + "/" + (b2 + ".tasks");
    if p1 == p2 {
      assert p1[9..73] == a1;
      assert p2[9..73] == a2;
      assert p1[74..138] == b1;
      assert p2[74..138] == b2;
    }
  }

  /**
   * A function that meets `IsDigestFunction`, so the assumption is
   * consistent: the decimal text of a snowflake, padded on the left with
   * 'a' to 64 characters; any other text maps to 64 zeros.
   */
  function PaddedDigits(s: string): (h: string)
    ensures IsHexDigest(h)
  {
    if AllDigits(s) && |s| <= 64 then Repeat('a', 64 - |s|) + s else Repeat('0', 64)
  }

  function Repeat(c: char, n: nat): (r: string)
    ensures |r| == n && forall i | 0 <= i < n :: r[i] == c
  {
    if n == 0 then [] else [c] + Repeat(c, n - 1)
  }

  /** Padding keeps two non-empty digit texts of at most 64 characters apart. */
  lemma PaddedDigitsInjective(s: string, t: string)
    requires AllDigits(s) && AllDigits(t) && 1 <= |s| <= 64 && 1 <= |t| <= 64
    requires PaddedDigits(s) == PaddedDigits(t)
    ensures s == t
  {
    var h := PaddedDigits(s);
    assert forall i | 0 <= i < 64 :: h[i] == 'a' <==> i < 64 - |s|;
    assert forall i | 0 <= i < 64 :: h[i] == 'a' <==> i < 64 - |t|;
    assert h[64 - |s|] != 'a' && h[64 - |t|] != 'a';
    assert s == h[64 - |s|..] && t == h[64 - |t|..];
  }

  /** A snowflake has at most 20 decimal digits. */
  lemma SnowflakeDigits(id: int)
    requires IsSnowflake(id)
    ensures |IntToString(id)| <= 20 && AllDigits(IntToString(id))
  {
    assert Pow10(4) == 10_000;
    assert Pow10(8) == 100_000_000;
    assert Pow10(12) == 1_000_000_000_000;
    assert Pow10(16) == 10_000_000_000_000_000;
    assert Pow10(20) == 100_000_000_000_000_000_000;
    NatToStringLength(id, 20);
  }

  /** `PaddedDigits` meets the assumption made of SHA-256. */
  lemma DigestFunctionExists()
    ensures IsDigestFunction(PaddedDigits)
  {
    forall a, b | IsSnowflake(a) && IsSnowflake(b) && Obscure(PaddedDigits, a) == Obscure(PaddedDigits, b)
      ensures a == b
    {
      SnowflakeDigits(a);
      SnowflakeDigits(b);
      PaddedDigitsInjective(IntToString(a), IntToString(b));
      IntToStringInjective(a, b);
    }
  }
}
