/**
 Which addresses the daemon's patterns match.
 */
module RgbPattern {
  import opened Bytes
  import opened PatternSpec
  import opened PatternLaws

  const LAMP_PREFIX: bytes := [47, 109, 111, 111, 100, 112, 100, 47, 108, 97, 109, 112, 115, 47]  // "/moodpd/lamps/"
  const RGB_SUFFIX: bytes := [47, 114, 103, 98]  // "/rgb"
  const RGB_PATTERN: bytes := LAMP_PREFIX + [STAR] + RGB_SUFFIX
  const ORI_PATTERN: bytes := [47, 111, 114, 105]  // "/ori"

  /** A character that stands for itself. */
  predicate Plain(p: bytes, i: nat)
    requires i < |p|
  {
    p[i] != QUESTION && p[i] != LBRACKET && p[i] != STAR && p[i] != LBRACE && !DoubleSlash(p, i)
  }

  lemma PlainStep(p: bytes, i: nat, s: bytes)
    requires i < |p| && Plain(p, i)
    ensures Derives(true, Tokens(p, i), s) <==> s != [] && s[0] == p[i] && Derives(true, Tokens(p, i + 1), s[1..])
  {
    var ts := Tokens(p, i);
    assert ts[0] == Lit(p[i]) && ts[1..] == Tokens(p, i + 1);
    if s != [] {
      assert s[..1] == [s[0]];
      assert Splits(true, ts, s, 1) <==> s[0] == p[i] && Derives(true, Tokens(p, i + 1), s[1..]);
    }
  }

  /** A run of plain characters of the pattern is a prefix of the path, and the rest matches the rest. */
  lemma {:induction false} PlainRun(p: bytes, i: nat, k: nat, s: bytes)
    requires i <= k <= |p| && forall m | i <= m < k :: Plain(p, m)
    ensures Derives(true, Tokens(p, i), s) <==> p[i..k] <= s && Derives(true, Tokens(p, k), s[k - i..])
    decreases k - i
  {
    hide Tokens, Derives;
    if i == k {
      assert p[i..k] == [] && s[0..] == s;
    } else {
      assert Plain(p, i);
      PlainStep(p, i, s);
      assert p[i..k] == [p[i]] + p[i + 1..k];
      if s != [] {
        PlainRun(p, i + 1, k, s[1..]);
        assert s == [s[0]] + s[1..];
        if p[i + 1..k] <= s[1..] {
          assert s[1..][k - i - 1..] == s[k - i..];
        }
      }
    }
  }

  lemma StarStep(p: bytes, i: nat, s: bytes)
    requires i < |p| && p[i] == STAR && (i + 1 < |p| ==> p[i + 1] != STAR)
    ensures Derives(true, Tokens(p, i), s) <==>
            exists k | 0 <= k <= |s| :: SLASH !in s[..k] && Derives(true, Tokens(p, i + 1), s[k..])
  {
    var ts := Tokens(p, i);
    assert ts[0] == Star && ts[1..] == Tokens(p, i + 1);
    forall k | 0 <= k <= |s|
      ensures Splits(true, ts, s, k) <==> SLASH !in s[..k] && Derives(true, Tokens(p, i + 1), s[k..])
    {
    }
  }

  lemma PlainEnd(p: bytes, i: nat, s: bytes)
    requires i <= |p| && forall m | i <= m < |p| :: Plain(p, m)
    ensures Derives(true, Tokens(p, i), s) <==> s == p[i..]
  {
    PlainRun(p, i, |p|, s);
    if p[i..|p|] <= s {
      assert s == p[i..] <==> s[|p| - i..] == [];
    }
  }

  /** `/moodpd/lamps/` and `/rgb`, with a `*` between them, and `/ori`, in characters. */
  lemma PatternCharacters()
    ensures RGB_PATTERN == [47, 109, 111, 111, 100, 112, 100, 47, 108, 97, 109, 112, 115, 47, 42, 47, 114, 103, 98]
    ensures LAMP_PREFIX == [47, 109, 111, 111, 100, 112, 100, 47, 108, 97, 109, 112, 115, 47]
    ensures RGB_SUFFIX == [47, 114, 103, 98] && ORI_PATTERN == [47, 111, 114, 105] && SLASH == 47
  {
  }

  lemma PatternShape()
    ensures |RGB_PATTERN| == 19 && RGB_PATTERN[0..14] == LAMP_PREFIX && |LAMP_PREFIX| == 14 && |RGB_SUFFIX| == 4
    ensures RGB_PATTERN[14] == STAR && RGB_PATTERN[15] != STAR && RGB_PATTERN[15..] == RGB_SUFFIX
    ensures forall m | 0 <= m < 14 || 15 <= m < 19 :: Plain(RGB_PATTERN, m)
    ensures NUL !in RGB_PATTERN
  {
    var p := RGB_PATTERN;
    assert p[..14] == LAMP_PREFIX && p[15..] == RGB_SUFFIX;
    forall m | 0 <= m < 14 || 15 <= m < 19 ensures Plain(p, m) {
      assert p[m] == if m < 14 then LAMP_PREFIX[m] else RGB_SUFFIX[m - 15];
    }
  }

  /**
   An address matches the colour pattern exactly when it is `/moodpd/lamps/`, anything without a slash,
   and `/rgb`.
   */
  lemma RgbAddresses(address: bytes)
    requires NUL !in address
    ensures FullMatch(RGB_PATTERN, address) <==>
            exists lamp: bytes :: SLASH !in lamp && address == LAMP_PREFIX + lamp + RGB_SUFFIX
    ensures FullMatch(RGB_PATTERN, address) ==> |address| >= 18 && address[..14] == LAMP_PREFIX
  {
    hide *;
    PatternShape();
    var p := RGB_PATTERN;
    CStrSame(p);
    CStrSame(address);
    FullMatchCommits(p, address);
    PlainRun(p, 0, 14, address);
    if LAMP_PREFIX <= address {
      var s := address[14..];
      assert address == LAMP_PREFIX + s;
      StarStep(p, 14, s);
      forall k | 0 <= k <= |s| ensures Derives(true, Tokens(p, 15), s[k..]) <==> s[k..] == RGB_SUFFIX {
        PlainEnd(p, 15, s[k..]);
      }
      SegmentAndSuffix(s);
      forall lamp: bytes ensures address == LAMP_PREFIX + lamp + RGB_SUFFIX <==> s == lamp + RGB_SUFFIX {
        assert LAMP_PREFIX + lamp + RGB_SUFFIX == LAMP_PREFIX + (lamp + RGB_SUFFIX);
        assert (LAMP_PREFIX + (lamp + RGB_SUFFIX))[14..] == lamp + RGB_SUFFIX;
      }
    }
  }

  lemma SegmentAndSuffix(s: bytes)
    ensures (exists k | 0 <= k <= |s| :: SLASH !in s[..k] && s[k..] == RGB_SUFFIX) <==>
            exists lamp: bytes :: SLASH !in lamp && s == lamp + RGB_SUFFIX
  {
    hide *;
    forall k | 0 <= k <= |s| && SLASH !in s[..k] && s[k..] == RGB_SUFFIX
      ensures exists lamp: bytes :: SLASH !in lamp && s == lamp + RGB_SUFFIX
    {
      assert s == s[..k] + RGB_SUFFIX;
    }
    forall lamp: bytes | SLASH !in lamp && s == lamp + RGB_SUFFIX
      ensures exists k | 0 <= k <= |s| :: SLASH !in s[..k] && s[k..] == RGB_SUFFIX
    {
      assert s[..|lamp|] == lamp && s[|lamp|..] == RGB_SUFFIX;
    }
  }

  lemma OriShape()
    ensures |ORI_PATTERN| == 4 && NUL !in ORI_PATTERN && forall m | 0 <= m < 4 :: Plain(ORI_PATTERN, m)
  {
  }

  lemma OriAddresses(address: bytes)
    requires NUL !in address
    ensures FullMatch(ORI_PATTERN, address) <==> address == ORI_PATTERN
  {
    hide *;
    OriShape();
    CStrSame(ORI_PATTERN);
    CStrSame(address);
    FullMatchCommits(ORI_PATTERN, address);
    PlainEnd(ORI_PATTERN, 0, address);
    assert ORI_PATTERN[0..] == ORI_PATTERN;
  }
}
