/** The free-text parser of the indexer (`ImageIndexer::parseText`): the
    `custom_text` of a sidecar holds `name:value` pairs separated by `-`;
    a value may be wrapped in backticks to protect the `-` and `:` inside
    it, which are replaced by placeholders while the text is split. */
module Metadata {
  import opened Strings

  const HyphenMarker := "__HYPHEN__"
  const ColonMarker := "__COLON__"

  /** The interiors of the backtick spans of `s`, left to right: what
      `/`([^`]*)`/` captures with `preg_match_all`. */
  function Spans(s: string): (r: seq<string>)
    ensures forall k :: 0 <= k < |r| ==> '`' !in r[k]
    decreases |s|
  {
    if '`' !in s then []
    else
      var i := IndexOf(s, '`');
      var rest := s[i + 1..];
      if '`' !in rest then []
      else
        var j := IndexOf(rest, '`');
        [rest[..j]] + Spans(rest[j + 1..])
  }

  /** The spans of `a` + "`v`" + `b`, with no backtick in `a` or `v`. */
  lemma SpansOf(a: string, v: string, b: string)
    requires '`' !in a && '`' !in v
    ensures Spans(a + "`" + v + "`" + b) == [v] + Spans(b)
  {
    var s := a + "`" + v + "`" + b;
    assert s[|a|] == '`';
    var i := IndexOf(s, '`');
    assert i == |a| by {
      assert forall k :: 0 <= k < |a| ==> s[k] == a[k];
      assert s[..i] == a[..i];
    }
    var rest := s[i + 1..];
    assert rest == v + "`" + b;
    assert rest[|v|] == '`';
    var j := IndexOf(rest, '`');
    assert j == |v| by {
      assert forall k :: 0 <= k < |v| ==> rest[k] == v[k];
      assert rest[..j] == v[..j];
    }
    assert rest[..j] == v && rest[j + 1..] == b;
  }

  /** The placeholder encoding of a span: `-` first, then `:`. */
  function Encode(m: string): (r: string)
    ensures '-' !in r && ':' !in r
    ensures '`' !in m ==> '`' !in r
  {
    var h := ReplaceAll(m, "-", HyphenMarker);
    ReplaceAllRemovesChar(m, '-', HyphenMarker);
    ReplaceAllRemovesChar(h, ':', ColonMarker);
    ReplaceAll(h, ":", ColonMarker)
  }

  /** The placeholders turned back into `-` and `:`. */
  function Restore(v: string): string
  {
    ReplaceAll(ReplaceAll(v, HyphenMarker, "-"), ColonMarker, ":")
  }

  /** Restoring an encoded span gives it back when it holds no `_` (which
      the placeholders start with) and no `:`. */
  lemma RestoreEncode(m: string)
    requires '_' !in m && ':' !in m
    ensures Restore(Encode(m)) == m
  {
    var h := ReplaceAll(m, "-", HyphenMarker);
    assert !Contains(h, ":") by {
      NotContainsFirstChar(m, ":");
      ReplaceAllRemovesChar(m, ':', HyphenMarker);
      NotContainsFirstChar(h, ":");
    }
    assert Encode(m) == h;
    ReplaceAllUndo(m, '-', HyphenMarker);
    NotContainsFirstChar(m, ColonMarker);
  }

  /** Each span replaced, in the whole text, by its encoding. */
  function Protect(text: string, spans: seq<string>): string
    decreases |spans|
  {
    if |spans| == 0 then text
    else Protect(ReplaceAll(text, spans[0], Encode(spans[0])), spans[1..])
  }

  /** The name of a `name:value` segment: the text before the first `:`. */
  function SegmentName(p: string): (r: string)
    ensures ':' !in r && IsPrefix(r, p)
    ensures ':' in p ==> IsPrefix(r + ":", p)
    ensures ':' !in p ==> r == p
  {
    var parts := Split(p, ':');
    if ':' in p then
      var i := IndexOf(p, ':');
      assert parts[0] == p[..i];
      assert p[..i + 1] == p[..i] + ":";
      parts[0]
    else parts[0]
  }

  /** The raw value of a segment: the text between the first and second
      `:`, or "" when there is no `:`. */
  function SegmentRawValue(p: string): (r: string)
    ensures ':' !in r
    ensures ':' !in p ==> r == ""
    ensures ':' in p ==> IsPrefix(SegmentName(p) + ":" + r, p)
  {
    var parts := Split(p, ':');
    if |parts| > 1 then
      var i := IndexOf(p, ':');
      var tail := p[i + 1..];
      assert p == p[..i] + ":" + tail;
      assert Split(tail, ':') == parts[1..];
      assert IsPrefix(parts[1], tail) by {
        if ':' in tail {
          var j := IndexOf(tail, ':');
          assert parts[1] == tail[..j];
        }
      }
      assert (SegmentName(p) + ":" + parts[1]) == p[..i + 1 + |parts[1]|];
      parts[1]
    else
      ""
  }

  /** The value stored for a segment: backticks trimmed, placeholders restored. */
  function SegmentValue(p: string): string
  {
    Restore(Trim(SegmentRawValue(p), {'`'}))
  }

  /** The segments of the protected text. */
  function Segments(text: string): seq<string>
  {
    ExplodeTrim('-', Protect(text, Spans(text)))
  }

  /** Each segment as its (name, value) pair. */
  function Pairs(segs: seq<string>): (r: seq<(string, string)>)
    ensures |r| == |segs|
    ensures forall k :: 0 <= k < |segs| ==> r[k] == (SegmentName(segs[k]), SegmentValue(segs[k]))
  {
    if |segs| == 0 then [] else [(SegmentName(segs[0]), SegmentValue(segs[0]))] + Pairs(segs[1..])
  }

  /** The pairs stored in a PHP array in order: a later pair with the same
      name overwrites an earlier one. */
  function Collect(pairs: seq<(string, string)>): (r: map<string, string>)
    decreases |pairs|
  {
    if |pairs| == 0 then map[]
    else
      var last := pairs[|pairs| - 1];
      Collect(pairs[..|pairs| - 1])[last.0 := last.1]
  }

  /** `parseText()` */
  function ParseText(text: string): (r: map<string, string>)
    ensures PhpEmpty(text) ==> r == map[]
    ensures forall k :: 0 <= k < |Segments(text)| ==> SegmentName(Segments(text)[k]) in r
  {
    if PhpEmpty(text) then map[]
    else
      var pairs := Pairs(Segments(text));
      CollectKeys(pairs);
      Collect(pairs)
  }

  /** The names collected are exactly those of the pairs. */
  lemma {:induction false} CollectKeys(pairs: seq<(string, string)>)
    ensures forall k :: 0 <= k < |pairs| ==> pairs[k].0 in Collect(pairs)
    ensures forall n :: n in Collect(pairs) ==> exists k :: 0 <= k < |pairs| && pairs[k].0 == n
    decreases |pairs|
  {
    if |pairs| > 0 {
      var init := pairs[..|pairs| - 1];
      CollectKeys(init);
      forall k | 0 <= k < |pairs| ensures pairs[k].0 in Collect(pairs) {
        if k < |init| {
          assert init[k] == pairs[k];
        }
      }
      forall n | n in Collect(pairs)
        ensures exists k :: 0 <= k < |pairs| && pairs[k].0 == n
      {
        if n != pairs[|pairs| - 1].0 {
          var k :| 0 <= k < |init| && init[k].0 == n;
          assert pairs[k] == init[k];
        }
      }
    }
  }

  /** The value stored under a name is that of the last pair with it. */
  lemma {:induction false} CollectLast(pairs: seq<(string, string)>, k: nat)
    requires k < |pairs|
    requires forall j :: k < j < |pairs| ==> pairs[j].0 != pairs[k].0
    ensures pairs[k].0 in Collect(pairs) && Collect(pairs)[pairs[k].0] == pairs[k].1
    decreases |pairs|
  {
    if k < |pairs| - 1 {
      var init := pairs[..|pairs| - 1];
      assert init[k] == pairs[k];
      assert forall j :: k < j < |init| ==> init[j] == pairs[j];
      CollectLast(init, k);
    }
  }

  /** The last index, at or after `k`, whose pair has name `n`. */
  lemma {:induction false} LastWithName(pairs: seq<(string, string)>, n: string, k: nat) returns (last: nat)
    requires k < |pairs| && pairs[k].0 == n
    ensures k <= last < |pairs| && pairs[last].0 == n
    ensures forall j :: last < j < |pairs| ==> pairs[j].0 != n
    decreases |pairs| - k
  {
    if exists j :: k < j < |pairs| && pairs[j].0 == n {
      var j :| k < j < |pairs| && pairs[j].0 == n;
      last := LastWithName(pairs, n, j);
    } else {
      last := k;
    }
  }

  /** Every name `parseText` returns is the name of a segment, and its
      value is that of the last segment carrying it. */
  lemma ParseTextEntries(text: string, n: string)
    requires n in ParseText(text)
    ensures !PhpEmpty(text)
    ensures exists k :: 0 <= k < |Segments(text)| && SegmentName(Segments(text)[k]) == n
              && ParseText(text)[n] == SegmentValue(Segments(text)[k])
              && forall j :: k < j < |Segments(text)| ==> SegmentName(Segments(text)[j]) != n
  {
    var segs := Segments(text);
    var pairs := Pairs(segs);
    CollectKeys(pairs);
    var k :| 0 <= k < |pairs| && pairs[k].0 == n;
    var last := LastWithName(pairs, n, k);
    CollectLast(pairs, last);
    assert SegmentName(segs[last]) == n;
  }

  /** Text with no backticks is split as it is. */
  lemma ProtectNothing(text: string)
    requires '`' !in text
    ensures Segments(text) == ExplodeTrim('-', text)
  {
  }

  /** The text `name:`v`` after protection: the span is encoded in place. */
  function Protected(name: string, v: string): string
  {
    name + ":`" + Encode(v) + "`"
  }

  /** `name:`v`` is a single segment: its protected form. */
  lemma SingleSegment(name: string, v: string)
    requires |name| > 0 && name[0] !in PhpWhitespace
    requires '-' !in name && ':' !in name && '`' !in name
    requires |v| > 0 && '`' !in v && ':' !in v
    ensures Segments(name + ":`" + v + "`") == [Protected(name, v)]
  {
    assert '`' !in PhpWhitespace;
    var text := name + ":`" + v + "`";
    ProtectSingle(name, v);
    var p := Protected(name, v);
    assert p == name + ":`" + Encode(v) + "`";
    assert '-' !in p by {
      assert forall c :: c in p ==> c in name || c == ':' || c == '`' || c in Encode(v);
    }
    assert p[0] == name[0];
    assert p[0] !in PhpWhitespace;
    assert p[|p| - 1] == '`';
    assert p[|p| - 1] != '0';
    ExplodeTrimWhole('-', p);
    assert Segments(text) == ExplodeTrim('-', p);
  }

  /** Protecting `name:`v`` encodes its only span. */
  lemma ProtectSingle(name: string, v: string)
    requires '-' !in name && ':' !in name && '`' !in name
    requires |v| > 0 && '`' !in v && ':' !in v
    ensures Protect(name + ":`" + v + "`", Spans(name + ":`" + v + "`")) == Protected(name, v)
  {
    var text := name + ":`" + v + "`";
    assert text == (name + ":") + "`" + v + "`" + "";
    SpansOf(name + ":", v, "");
    assert Spans("") == [];
    ProtectSpan(name, v);
    assert Protect(text, [v]) == Protect(ReplaceAll(text, v, Encode(v)), []);
  }

  /** A nonempty, trimmed string without the delimiter explodes to itself. */
  lemma ExplodeTrimWhole(delim: char, p: string)
    requires |p| > 0 && delim !in p && p[|p| - 1] != '0'
    requires p[0] !in PhpWhitespace && p[|p| - 1] !in PhpWhitespace
    ensures ExplodeTrim(delim, p) == [p]
  {
    assert !PhpEmpty(p);
    assert Split(p, delim) == [p];
    TrimOfTrimmed(p, PhpWhitespace);
    assert TrimAndDrop([p], delim) == [p] + TrimAndDrop([], delim);
  }

  /** The protected segment has the name and, once restored, the value. */
  lemma SingleSegmentParts(name: string, v: string)
    requires '-' !in name && ':' !in name && '`' !in name
    requires '`' !in v && ':' !in v && '_' !in v
    ensures SegmentName(Protected(name, v)) == name
    ensures SegmentValue(Protected(name, v)) == v
  {
    var e := Encode(v);
    var tail := "`" + e + "`";
    var p := Protected(name, v);
    assert p == name + ":" + tail;
    SplitJoin([name, tail], ':');
    assert Join([name, tail], ":") == p;
    assert Split(p, ':') == [name, tail];
    assert SegmentRawValue(p) == tail;
    TrimTicks(e);
    RestoreEncode(v);
  }

  /** A single backticked property: `name:`value`` parses to that name and
      value, even when the value holds `-`; the backticks are trimmed and
      the placeholders restored. */
  lemma ParseSingleProperty(name: string, v: string)
    requires |name| > 0 && name[0] !in PhpWhitespace
    requires '-' !in name && ':' !in name && '`' !in name
    requires |v| > 0 && '`' !in v && ':' !in v && '_' !in v
    ensures ParseText(name + ":`" + v + "`") == map[name := v]
  {
    var text := name + ":`" + v + "`";
    var p := Protected(name, v);
    assert !PhpEmpty(text) by {
      assert text[|text| - 1] != '0';
    }
    assert ParseText(text) == Collect(Pairs(Segments(text)));
    assert Segments(text) == [p] by {
      SingleSegment(name, v);
    }
    assert Pairs([p]) == [(name, v)] by {
      SingleSegmentParts(name, v);
    }
    assert Collect([(name, v)]) == map[name := v] by {
      assert [(name, v)][..0] == [];
    }
  }

  /** Trimming the backticks around a backtick-free string. */
  lemma TrimTicks(e: string)
    requires '`' !in e
    ensures Trim("`" + e + "`", {'`'}) == e
  {
    var s := "`" + e + "`";
    assert s[1..] == e + "`";
    var l := TrimLeft(s, {'`'});
    if |e| > 0 {
      assert TrimLeft(e + "`", {'`'}) == e + "`";
      var et := e + "`";
      assert et[..|et| - 1] == e;
      assert TrimRight(e, {'`'}) == e;
    } else {
      assert TrimLeft("`", {'`'}) == "";
    }
  }

  /** In `name:`v``, with a `-` in `v`, the value cannot start inside the
      `name:`` prefix: the `-`, the `:` or the backtick would have to line
      up with a character that differs. */
  lemma NoSpanBeforeTick(name: string, v: string)
    requires '-' !in name && ':' !in name && '`' !in name
    requires |v| > 0 && '`' !in v && ':' !in v && '-' in v
    ensures forall i :: 0 <= i < |name| + 2 ==> !OccursAt((name + ":`") + (v + "`"), v, i)
  {
    var a := name + ":`";
    var text := a + (v + "`");
    var d := IndexOf(v, '-');
    forall i | 0 <= i < |a| ensures !OccursAt(text, v, i) {
      if i + |v| <= |text| {
        var w := text[i..i + |v|];
        if i + |v| <= |name| {
          assert w[d] == name[i + d] && w[d] != v[d];
        } else if i + |v| == |name| + 1 {
          assert w[|v| - 1] == ':' && v[|v| - 1] != ':';
        } else {
          assert w[|name| + 1 - i] == '`' && v[|name| + 1 - i] != '`';
        }
      }
    }
  }

  /** Encoding the only span of `name:`v`` rewrites exactly that span. */
  lemma ProtectSpan(name: string, v: string)
    requires '-' !in name && ':' !in name && '`' !in name
    requires |v| > 0 && '`' !in v && ':' !in v
    ensures ReplaceAll(name + ":`" + v + "`", v, Encode(v)) == name + ":`" + Encode(v) + "`"
  {
    var e := Encode(v);
    var a := name + ":`";
    var b := v + "`";
    var text := a + b;
    assert text == name + ":`" + v + "`";
    if '-' in v {
      NoSpanBeforeTick(name, v);
      ReplaceAllSkipsPrefix(a, b, v, e);
      ReplaceAllAtHead(v, "`", e);
      NotContainsFirstChar("`", v);
      assert a + (e + "`") == name + ":`" + e + "`";
    } else {
      NotContainsFirstChar(v, "-");
      NotContainsFirstChar(v, ":");
      assert e == v;
      ReplaceAllIdentity(text, v);
    }
  }
}
