/** What the indexer reads from an image's base name. ComfyUI names its
    output `<test number>-<test name>-seed<seed>_<counter>_`; the indexer
    reads `_` as `-`, splits on `-`, and takes the first token as the test
    number, the last as the image number, and the tokens before the last
    `seed…` token as the test name. */
module FileNames {
  import opened Wrappers
  import opened Strings

  datatype NameParts = NameParts(testNumber: int, imageNumber: int, seed: string, testName: string)

  /** The tokens of a base name: `_` read as `-`, exploded on `-`, trimmed,
      empty tokens dropped. */
  function Tokens(baseName: string): (r: seq<string>)
    ensures forall k :: 0 <= k < |r| ==> |r[k]| > 0 && '-' !in r[k]
  {
    ExplodeTrim('-', ReplaceAll(baseName, "_", "-"))
  }

  /** The last token that starts with `seed`: the loop over the middle
      tokens overwrites the seed and test name at every such token. */
  function LastSeedIndex(toks: seq<string>): (r: Option<nat>)
    ensures r.Some? ==> r.value < |toks| && IsPrefix("seed", toks[r.value])
    ensures r.Some? ==> forall j :: r.value < j < |toks| ==> !IsPrefix("seed", toks[j])
    ensures r.None? ==> forall j :: 0 <= j < |toks| ==> !IsPrefix("seed", toks[j])
  {
    if |toks| == 0 then None
    else if IsPrefix("seed", toks[|toks| - 1]) then Some(|toks| - 1)
    else LastSeedIndex(toks[..|toks| - 1])
  }

  /** The name parts of the indexing step (`array_shift`, `array_pop`, the
      seed loop) over the tokens; a missing token reads as `(int)null`, that
      is 0, and a missing seed token leaves seed and test name empty. */
  function DecodeTokens(toks: seq<string>): (r: NameParts)
    ensures |toks| == 0 ==> r == NameParts(0, 0, "", "")
    ensures |toks| > 0 ==> r.testNumber == PhpIntCast(toks[0])
    ensures |toks| > 1 ==> r.imageNumber == PhpIntCast(toks[|toks| - 1])
    ensures |toks| <= 1 ==> r.imageNumber == 0
    ensures |toks| <= 2 ==> r.seed == "" && r.testName == ""
  {
    var testNr := if |toks| > 0 then PhpIntCast(toks[0]) else 0;
    var rest := if |toks| > 0 then toks[1..] else [];
    var imageNr := if |rest| > 0 then PhpIntCast(rest[|rest| - 1]) else 0;
    var middle := if |rest| > 0 then rest[..|rest| - 1] else [];
    match LastSeedIndex(middle)
    case None => NameParts(testNr, imageNr, "", "")
    case Some(j) => NameParts(testNr, imageNr, ReplaceAll(middle[j], "seed", ""), Join(middle[..j], "-"))
  }

  /** The name parts of a base name. */
  function DecodeFileName(baseName: string): NameParts
  {
    DecodeTokens(Tokens(baseName))
  }

  /** A token that survives exploding and trimming unchanged and is not a
      seed token. */
  predicate NameToken(t: string)
  {
    |t| > 0 && '-' !in t && '_' !in t && Trimmed(t, PhpWhitespace) && !IsPrefix("seed", t)
  }

  /** Removing `seed` from `seed<digits>` leaves the digits. */
  lemma SeedDigits(ds: string)
    requires AllDigits(ds)
    ensures ReplaceAll("seed" + ds, "seed", "") == ds
  {
    ReplaceAllAtHead("seed", ds, "");
    assert 's' !in ds by {
      assert forall k :: 0 <= k < |ds| ==> IsDigit(ds[k]);
    }
    NotContainsFirstChar(ds, "seed");
  }

  /** A token that explodes to itself. */
  predicate CleanToken(t: string)
  {
    |t| > 0 && '-' !in t && '_' !in t && Trimmed(t, PhpWhitespace)
  }

  /** Clean tokens joined with `-` are tokenised back into themselves. */
  lemma TokensOfJoin(parts: seq<string>)
    requires |parts| >= 2
    requires forall k :: 0 <= k < |parts| ==> CleanToken(parts[k])
    ensures Tokens(Join(parts, "-")) == parts
  {
    var s := Join(parts, "-");
    assert ReplaceAll(s, "_", "-") == s by {
      assert '_' !in s by {
        JoinChars(parts, "-");
      }
      NotContainsFirstChar(s, "_");
    }
    ExplodeTrimJoin(parts, '-');
  }

  /** The tokens of the ComfyUI pattern are clean. */
  lemma FormattedTokensClean(t: string, nameToks: seq<string>, seedDigits: string, img: string)
    requires |t| > 0 && AllDigits(t) && |img| > 0 && AllDigits(img) && AllDigits(seedDigits)
    requires forall k :: 0 <= k < |nameToks| ==> NameToken(nameToks[k])
    ensures forall k :: 0 <= k < |[t] + nameToks + ["seed" + seedDigits, img]| ==>
              CleanToken(([t] + nameToks + ["seed" + seedDigits, img])[k])
  {
    var parts := [t] + nameToks + ["seed" + seedDigits, img];
    DigitsClean(t);
    DigitsClean(img);
    SeedClean(seedDigits);
    forall k | 0 <= k < |parts| ensures CleanToken(parts[k]) {
      if k == 0 {
        assert parts[k] == t;
      } else if k <= |nameToks| {
        assert parts[k] == nameToks[k - 1];
      } else if k == |nameToks| + 1 {
        assert parts[k] == "seed" + seedDigits;
      } else {
        assert parts[k] == img;
      }
    }
  }

  lemma DigitsClean(ds: string)
    requires |ds| > 0 && AllDigits(ds)
    ensures CleanToken(ds)
  {
    assert forall k :: 0 <= k < |ds| ==> IsDigit(ds[k]);
    assert IsDigit(ds[0]) && IsDigit(ds[|ds| - 1]);
  }

  lemma SeedClean(ds: string)
    requires AllDigits(ds)
    ensures CleanToken("seed" + ds)
  {
    var sd := "seed" + ds;
    assert forall k :: 0 <= k < |ds| ==> IsDigit(ds[k]);
    assert forall k :: 4 <= k < |sd| ==> sd[k] == ds[k - 4];
    assert sd[0] == 's';
    if |ds| > 0 {
      assert IsDigit(sd[|sd| - 1]);
    }
  }

  /** Decoding a name written in the ComfyUI pattern gives its parts back:
      the numbers by value (leading zeros dropped, values beyond the
      integer range saturated), the seed digits, and
      the test name tokens joined with `-`. */
  lemma DecodeFormatted(t: string, nameToks: seq<string>, seedDigits: string, img: string)
    requires |t| > 0 && AllDigits(t) && |img| > 0 && AllDigits(img) && AllDigits(seedDigits)
    requires forall k :: 0 <= k < |nameToks| ==> NameToken(nameToks[k])
    ensures DecodeFileName(Join([t] + nameToks + ["seed" + seedDigits, img], "-"))
            == NameParts(Saturate(DigitsValue(t)), Saturate(DigitsValue(img)), seedDigits, Join(nameToks, "-"))
  {
    var parts := [t] + nameToks + ["seed" + seedDigits, img];
    assert Tokens(Join(parts, "-")) == parts by {
      FormattedTokensClean(t, nameToks, seedDigits, img);
      TokensOfJoin(parts);
    }
    DecodeFormattedTokens(t, nameToks, seedDigits, img);
  }

  /** The same on the tokens of the pattern. */
  lemma DecodeFormattedTokens(t: string, nameToks: seq<string>, seedDigits: string, img: string)
    requires |t| > 0 && AllDigits(t) && |img| > 0 && AllDigits(img) && AllDigits(seedDigits)
    requires forall k :: 0 <= k < |nameToks| ==> NameToken(nameToks[k])
    ensures DecodeTokens([t] + nameToks + ["seed" + seedDigits, img])
            == NameParts(Saturate(DigitsValue(t)), Saturate(DigitsValue(img)), seedDigits, Join(nameToks, "-"))
  {
    var parts := [t] + nameToks + ["seed" + seedDigits, img];
    var middle := parts[1..][..|parts| - 2];
    assert middle == nameToks + ["seed" + seedDigits];
    assert forall j :: 0 <= j < |nameToks| ==> middle[j] == nameToks[j];
    assert LastSeedIndex(middle) == Some(|nameToks|);
    assert middle[..|nameToks|] == nameToks;
    SeedDigits(seedDigits);
    DigitCast(t);
    DigitCast(img);
  }

  /** The characters of a join come from the parts and the separator. */
  lemma {:induction false} JoinChars(parts: seq<string>, sep: string)
    ensures forall c :: c in Join(parts, sep) ==> c in sep || exists k :: 0 <= k < |parts| && c in parts[k]
    decreases |parts|
  {
    if |parts| > 1 {
      JoinChars(parts[1..], sep);
      forall c | c in Join(parts, sep)
        ensures c in sep || exists k :: 0 <= k < |parts| && c in parts[k]
      {
        if c in Join(parts[1..], sep) && c !in sep {
          var k :| 0 <= k < |parts[1..]| && c in parts[1..][k];
          assert parts[k + 1] == parts[1..][k];
        } else if c in parts[0] {
          assert c in parts[0];
        }
      }
    } else if |parts| == 1 {
      assert Join(parts, sep) == parts[0];
    }
  }

  /** `(int)` of a digit string is its value, or the largest integer when
      the value does not fit. */
  lemma DigitCast(ds: string)
    requires |ds| > 0 && AllDigits(ds)
    ensures PhpIntCast(ds) == Saturate(DigitsValue(ds))
    ensures DigitsValue(ds) <= PhpIntMax ==> PhpIntCast(ds) == DigitsValue(ds)
    ensures DigitsValue(ds) > PhpIntMax ==> PhpIntCast(ds) == PhpIntMax
  {
    DigitsUntrimmed(ds);
    assert ds[0] != '-' && ds[0] != '+' by { assert IsDigit(ds[0]); }
    DigitPrefixOfDigits(ds);
    assert PhpIntCast(ds) == Saturate(DigitsValue(DigitPrefix(ds)) as int);
  }

  lemma DigitsUntrimmed(ds: string)
    requires |ds| > 0 && IsDigit(ds[0])
    ensures TrimLeft(ds, NumericWhitespace) == ds
  {
    assert ds[0] !in NumericWhitespace;
  }
}
