/**
 Parsing of the `key = value` tags that ScanImage embeds in the image
 description of a TIFF file (`si_parse` and `val_parse` in utils.py).

 The description is split into lines; only lines holding an `=` count; each
 such line is split at every `=`, every piece is stripped of blanks and
 carriage returns at both ends, and piece 0 becomes a key whose value is the
 parsed piece 1. Python's `eval` is arbitrary code, so it is a parameter
 here: `eval(v)` is `Some(x)` when evaluating `v` yields `x` and `None` when
 it raises.
 */
module ScanImageTags {

  datatype Option<T> = None | Some(value: T)

  /** A parsed tag value: what `eval` made of the text, or one of the literal fallbacks. */
  datatype Value<V> = Evaluated(result: V) | Bool(b: bool) | NaN | PosInf | Text(s: string)

  // ---------------------------------------------------------------------------
  // str.split(sep)

  /** Python's `s.split(sep)` for a one-character separator. */
  function Split(s: string, sep: char): (pieces: seq<string>)
    ensures |pieces| >= 1
    ensures forall k :: 0 <= k < |pieces| ==> sep !in pieces[k]
    ensures |pieces| >= 2 <==> sep in s
  {
    if s == [] then [[]]
    else
      var rest := Split(s[1..], sep);
      assert sep in s[1..] ==> sep in s by {
        if sep in s[1..] {
          var k :| 0 <= k < |s[1..]| && s[1..][k] == sep;
          assert s[k + 1] == sep;
        }
      }
      if s[0] == sep then [[]] + rest
      else [[s[0]] + rest[0]] + rest[1..]
  }

  /** `sep.join(pieces)`: the inverse of Split. */
  function Join(pieces: seq<string>, sep: char): string
    requires |pieces| >= 1
  {
    if |pieces| == 1 then pieces[0] else pieces[0] + [sep] + Join(pieces[1..], sep)
  }

  /** Splitting loses nothing: joining the pieces with the separator gives the text back. */
  lemma {:induction false} JoinSplit(s: string, sep: char)
    ensures Join(Split(s, sep), sep) == s
  {
    if s != [] {
      var rest := Split(s[1..], sep);
      JoinSplit(s[1..], sep);
      if s[0] == sep {
        assert Split(s, sep) == [[]] + rest;
      } else if |rest| == 1 {
        assert Split(s, sep) == [[s[0]] + rest[0]];
      } else {
        var pieces := Split(s, sep);
        assert pieces == [[s[0]] + rest[0]] + rest[1..];
        assert pieces[1..] == rest[1..];
        calc {
          Join(pieces, sep);
          pieces[0] + [sep] + Join(rest[1..], sep);
          [s[0]] + (rest[0] + [sep] + Join(rest[1..], sep));
          [s[0]] + Join(rest, sep);
          s;
        }
      }
    }
  }

  /**
   Piece 0 is the text before the first separator, and the later pieces are
   the pieces of the text after it; so piece 1 is the text between the first
   and the second separator.
   */
  lemma {:induction false} SplitAtFirst(s: string, sep: char, i: nat)
    requires i < |s| && s[i] == sep && sep !in s[..i]
    ensures Split(s, sep)[0] == s[..i]
    ensures Split(s, sep)[1..] == Split(s[i + 1..], sep)
  {
    if i > 0 {
      assert s[0] != sep by { assert s[..i][0] == s[0]; }
      assert s[1..][..i - 1] == s[1..i];
      SplitAtFirst(s[1..], sep, i - 1);
      assert s[1..][i..] == s[i + 1..];
      assert [s[0]] + s[1..][..i - 1] == s[..i];
    }
  }

  // ---------------------------------------------------------------------------
  // str.strip(' \r')

  /** The characters `strip(' \r')` removes. */
  predicate IsStripChar(ch: char) {
    ch == ' ' || ch == '\r'
  }

  predicate AllStripChars(s: string) {
    forall k :: 0 <= k < |s| ==> IsStripChar(s[k])
  }

  /** `s.lstrip(' \r')`. */
  function StripLeading(s: string): (r: string)
    ensures |r| <= |s|
    ensures r == [] || !IsStripChar(r[0])
  {
    if s != [] && IsStripChar(s[0]) then StripLeading(s[1..]) else s
  }

  /** `s.rstrip(' \r')`. */
  function StripTrailing(s: string): (r: string)
    ensures |r| <= |s|
    ensures r == [] || !IsStripChar(r[|r| - 1])
  {
    if s != [] && IsStripChar(s[|s| - 1]) then StripTrailing(s[..|s| - 1]) else s
  }

  /** `s.strip(' \r')`. */
  function Strip(s: string): (r: string)
    ensures |r| <= |s|
  {
    StripTrailing(StripLeading(s))
  }

  /** lstrip keeps the longest suffix that does not start with a blank or carriage return. */
  lemma {:induction false} StripLeadingSpec(s: string)
    ensures |StripLeading(s)| <= |s| && StripLeading(s) == s[|s| - |StripLeading(s)|..]
    ensures AllStripChars(s[..|s| - |StripLeading(s)|])
    ensures StripLeading(s) == [] || !IsStripChar(StripLeading(s)[0])
  {
    if s != [] && IsStripChar(s[0]) {
      StripLeadingSpec(s[1..]);
      var r := StripLeading(s[1..]);
      assert s[|s| - |r|..] == s[1..][|s| - 1 - |r|..];
      assert s[..|s| - |r|] == [s[0]] + s[1..][..|s| - 1 - |r|];
    }
  }

  /** rstrip keeps the longest prefix that does not end with a blank or carriage return. */
  lemma {:induction false} StripTrailingSpec(s: string)
    ensures |StripTrailing(s)| <= |s| && StripTrailing(s) == s[..|StripTrailing(s)|]
    ensures AllStripChars(s[|StripTrailing(s)|..])
    ensures StripTrailing(s) == [] || !IsStripChar(StripTrailing(s)[|StripTrailing(s)| - 1])
  {
    if s != [] && IsStripChar(s[|s| - 1]) {
      StripTrailingSpec(s[..|s| - 1]);
      var r := StripTrailing(s[..|s| - 1]);
      assert s[..|s| - 1][..|r|] == s[..|r|];
      assert s[|r|..] == s[..|s| - 1][|r|..] + [s[|s| - 1]];
    }
  }

  /** Stripping drops only a run of strip characters at each end: the result sits inside `s`. */
  lemma StripIsInfix(s: string)
    ensures exists lo :: (0 <= lo <= |s| - |Strip(s)| && s[lo..lo + |Strip(s)|] == Strip(s)
                          && AllStripChars(s[..lo]) && AllStripChars(s[lo + |Strip(s)|..]))
  {
    var l := StripLeading(s);
    var r := StripTrailing(l);
    StripLeadingSpec(s);
    StripTrailingSpec(l);
    var lo := |s| - |l|;
    assert s[lo..lo + |r|] == r;
    assert s[lo + |r|..] == l[|r|..];
  }

  /** Stripping never introduces a character the text did not hold. */
  lemma StripOmits(s: string, c: char)
    requires c !in s
    ensures c !in Strip(s)
  {
    StripIsInfix(s);
    var lo :| 0 <= lo <= |s| - |Strip(s)| && s[lo..lo + |Strip(s)|] == Strip(s)
              && AllStripChars(s[..lo]) && AllStripChars(s[lo + |Strip(s)|..]);
    forall i | 0 <= i < |Strip(s)|
      ensures Strip(s)[i] != c
    {
      assert Strip(s)[i] == s[lo + i];
    }
  }

  /** The result of stripping neither starts nor ends with a blank or carriage return. */
  lemma StripEnds(s: string)
    ensures Strip(s) == [] || (!IsStripChar(Strip(s)[0]) && !IsStripChar(Strip(s)[|Strip(s)| - 1]))
  {
    var l := StripLeading(s);
    var r := StripTrailing(l);
    StripLeadingSpec(s);
    StripTrailingSpec(l);
    if r != [] {
      assert r[0] == l[0];
    }
  }

  /** Text surrounded only by strip characters, with no strip character at its ends, is exactly what Strip returns. */
  lemma {:induction false} StripSurrounded(pre: string, core: string, post: string)
    requires AllStripChars(pre) && AllStripChars(post)
    requires core == [] || (!IsStripChar(core[0]) && !IsStripChar(core[|core| - 1]))
    ensures Strip(pre + core + post) == core
  {
    assert pre + core + post == pre + (core + post);
    if core == [] {
      assert core + post == post;
      var l := StripLeading(pre + post);
      StripLeadingSpec(pre + post);
      assert AllStripChars(pre + post);
      assert l == [];
    } else {
      StripLeadingDrops(pre, core + post);
      StripTrailingDrops(core, post);
    }
  }

  lemma {:induction false} StripLeadingDrops(pre: string, rest: string)
    requires AllStripChars(pre)
    requires rest == [] || !IsStripChar(rest[0])
    ensures StripLeading(pre + rest) == rest
  {
    if pre == [] {
      assert pre + rest == rest;
    } else {
      assert (pre + rest)[1..] == pre[1..] + rest;
      StripLeadingDrops(pre[1..], rest);
    }
  }

  lemma {:induction false} StripTrailingDrops(rest: string, post: string)
    requires AllStripChars(post)
    requires rest == [] || !IsStripChar(rest[|rest| - 1])
    ensures StripTrailing(rest + post) == rest
  {
    if post == [] {
      assert rest + post == rest;
    } else {
      assert (rest + post)[..|rest + post| - 1] == rest + post[..|post| - 1];
      StripTrailingDrops(rest, post[..|post| - 1]);
    }
  }

  /** Stripping twice is stripping once. */
  lemma StripIdempotent(s: string)
    ensures Strip(Strip(s)) == Strip(s)
  {
    StripEnds(s);
    StripSurrounded([], Strip(s), []);
    assert [] + Strip(s) + [] == Strip(s);
  }

  // ---------------------------------------------------------------------------
  // val_parse

  /** The words val_parse recognises when `eval` fails. */
  const LiteralWords: set<string> := {"true", "false", "NaN", "inf", "Inf"}

  /**
   `val_parse(v)`: the value `eval` gives; when `eval` raises, the literals
   `true`, `false`, `NaN`, `inf` and `Inf`, and otherwise the text itself.
   */
  function ValParse<V(==)>(eval: string -> Option<V>, v: string): (r: Value<V>)
    ensures r.Evaluated? <==> eval(v).Some?
    ensures r.Evaluated? ==> eval(v) == Some(r.result)
    ensures r.Bool? ==> v == (if r.b then "true" else "false")
    ensures r.NaN? ==> v == "NaN"
    ensures r.PosInf? ==> v == "inf" || v == "Inf"
    ensures r.Text? ==> r.s == v && v !in LiteralWords
  {
    match eval(v)
    case Some(x) => Evaluated(x)
    case None =>
      if v == "true" then Bool(true)
      else if v == "false" then Bool(false)
      else if v == "NaN" then NaN
      else if v == "inf" || v == "Inf" then PosInf
      else Text(v)
  }

  // ---------------------------------------------------------------------------
  // si_parse

  /** `[i for i in lines if '=' in i]`. */
  function KeepAssignments(lines: seq<string>): (kept: seq<string>)
    ensures forall k :: 0 <= k < |kept| ==> '=' in kept[k]
  {
    if lines == [] then []
    else
      var init := KeepAssignments(lines[..|lines| - 1]);
      if '=' in lines[|lines| - 1] then init + [lines[|lines| - 1]] else init
  }

  /** `[[ii.strip(' \r') for ii in i.split('=')] for i in kept]`. */
  function Fields(kept: seq<string>): (fields: seq<seq<string>>)
    requires forall k :: 0 <= k < |kept| ==> '=' in kept[k]
    ensures |fields| == |kept|
    ensures forall k :: 0 <= k < |fields| ==> |fields[k]| >= 2
  {
    seq(|kept|, k requires 0 <= k < |kept| =>
      var pieces := Split(kept[k], '=');
      seq(|pieces|, j requires 0 <= j < |pieces| => Strip(pieces[j])))
  }

  /** `{i[0]: val_parse(i[1]) for i in fields}`: later entries overwrite earlier ones. */
  function BuildMap<V(==)>(eval: string -> Option<V>, fields: seq<seq<string>>): (tags: map<string, Value<V>>)
    requires forall k :: 0 <= k < |fields| ==> |fields[k]| >= 2
    ensures forall k :: 0 <= k < |fields| ==> fields[k][0] in tags
  {
    if fields == [] then map[]
    else
      var last := fields[|fields| - 1];
      BuildMap(eval, fields[..|fields| - 1])[last[0] := ValParse(eval, last[1])]
  }

  /** `si_parse(imd)`. */
  function SiParse<V(==)>(eval: string -> Option<V>, imd: string): (tags: map<string, Value<V>>)
    ensures tags == TagsOf(eval, Split(imd, '\n'))
  {
    BuildMapIsTagsOf(eval, Split(imd, '\n'));
    BuildMap(eval, Fields(KeepAssignments(Split(imd, '\n'))))
  }

  /** The key a line holding `=` defines: its text before the first `=`, stripped. */
  function Key(line: string): (k: string)
    ensures '=' !in k
  {
    var piece := Split(line, '=')[0];
    StripOmits(piece, '=');
    Strip(piece)
  }

  /** The raw value of a line holding `=`: its text between the first and second `=`, stripped. */
  function RawValue(line: string): (v: string)
    requires '=' in line
    ensures '=' !in v
  {
    var piece := Split(line, '=')[1];
    StripOmits(piece, '=');
    Strip(piece)
  }

  /** The effect of one line on the tags read so far: a line with `=` sets its key, any other line is skipped. */
  function ReadLine<V(==)>(eval: string -> Option<V>, tags: map<string, Value<V>>, line: string): map<string, Value<V>> {
    if '=' in line then tags[Key(line) := ValParse(eval, RawValue(line))] else tags
  }

  /** Reference reading of a description, one line after the other. */
  function TagsOf<V(==)>(eval: string -> Option<V>, lines: seq<string>): map<string, Value<V>> {
    if lines == [] then map[]
    else ReadLine(eval, TagsOf(eval, lines[..|lines| - 1]), lines[|lines| - 1])
  }

  lemma {:induction false} BuildMapIsTagsOf<V>(eval: string -> Option<V>, lines: seq<string>)
    ensures BuildMap(eval, Fields(KeepAssignments(lines))) == TagsOf(eval, lines)
  {
    if lines != [] {
      var init := lines[..|lines| - 1];
      var last := lines[|lines| - 1];
      BuildMapIsTagsOf(eval, init);
      var kept := KeepAssignments(init);
      if '=' in last {
        var fields := Fields(kept + [last]);
        assert fields[..|fields| - 1] == Fields(kept);
        assert fields[|fields| - 1][0] == Key(last);
        assert fields[|fields| - 1][1] == RawValue(last);
      }
    }
  }

  /** The keys TagsOf defines: the keys of the lines holding `=`. */
  ghost predicate DefinesKey(lines: seq<string>, key: string) {
    exists j :: 0 <= j < |lines| && '=' in lines[j] && Key(lines[j]) == key
  }

  lemma ReadLineKeys<V>(eval: string -> Option<V>, tags: map<string, Value<V>>, line: string, key: string)
    ensures key in ReadLine(eval, tags, line) <==> key in tags || ('=' in line && Key(line) == key)
  {
  }

  lemma DefinesKeySnoc(lines: seq<string>, key: string)
    requires lines != []
    ensures DefinesKey(lines, key) <==>
            DefinesKey(lines[..|lines| - 1], key) || ('=' in lines[|lines| - 1] && Key(lines[|lines| - 1]) == key)
  {
    var init := lines[..|lines| - 1];
    var n := |lines| - 1;
    if DefinesKey(init, key) {
      var j :| 0 <= j < |init| && '=' in init[j] && Key(init[j]) == key;
      assert lines[j] == init[j];
      assert DefinesKey(lines, key);
    }
    if '=' in lines[n] && Key(lines[n]) == key {
      assert DefinesKey(lines, key);
    }
    if DefinesKey(lines, key) {
      var j :| 0 <= j < |lines| && '=' in lines[j] && Key(lines[j]) == key;
      if j < n {
        assert init[j] == lines[j];
        assert DefinesKey(init, key);
      }
    }
  }

  lemma {:induction false} TagsOfKeys<V>(eval: string -> Option<V>, lines: seq<string>, key: string)
    ensures key in TagsOf(eval, lines) <==> DefinesKey(lines, key)
  {
    if lines != [] {
      var init := lines[..|lines| - 1];
      TagsOfKeys(eval, init, key);
      ReadLineKeys(eval, TagsOf(eval, init), lines[|lines| - 1], key);
      DefinesKeySnoc(lines, key);
    }
  }

  /** Line `j` holds `=` and no later line holding `=` has the same key. */
  ghost predicate LastDefinition(lines: seq<string>, j: nat) {
    j < |lines| && '=' in lines[j] &&
    forall j' :: j < j' < |lines| && '=' in lines[j'] ==> Key(lines[j']) != Key(lines[j])
  }

  lemma LastDefinitionInit(lines: seq<string>, j: nat)
    requires LastDefinition(lines, j) && j < |lines| - 1
    ensures LastDefinition(lines[..|lines| - 1], j)
    ensures !('=' in lines[|lines| - 1] && Key(lines[|lines| - 1]) == Key(lines[j]))
  {
    var init := lines[..|lines| - 1];
    forall j' | j < j' < |init| && '=' in init[j']
      ensures Key(init[j']) != Key(init[j])
    {
      assert init[j'] == lines[j'];
    }
  }

  lemma ReadLineOtherKey<V>(eval: string -> Option<V>, tags: map<string, Value<V>>, line: string, key: string)
    requires key in tags && !('=' in line && Key(line) == key)
    ensures key in ReadLine(eval, tags, line) && ReadLine(eval, tags, line)[key] == tags[key]
  {
  }

  lemma {:induction false} TagsOfLastWins<V>(eval: string -> Option<V>, lines: seq<string>, j: nat)
    requires LastDefinition(lines, j)
    ensures Key(lines[j]) in TagsOf(eval, lines)
    ensures TagsOf(eval, lines)[Key(lines[j])] == ValParse(eval, RawValue(lines[j]))
  {
    var init := lines[..|lines| - 1];
    if j < |lines| - 1 {
      LastDefinitionInit(lines, j);
      TagsOfLastWins(eval, init, j);
      ReadLineOtherKey(eval, TagsOf(eval, init), lines[|lines| - 1], Key(lines[j]));
    }
  }

  /** A key is in the parsed map exactly when some line holding `=` has it as its stripped text before the first `=`. */
  lemma SiParseKeys<V>(eval: string -> Option<V>, imd: string, key: string)
    ensures key in SiParse(eval, imd) <==> DefinesKey(Split(imd, '\n'), key)
  {
    TagsOfKeys(eval, Split(imd, '\n'), key);
  }

  /** A key's value is val_parse of the raw value on the last line that defines that key. */
  lemma SiParseLastLineWins<V>(eval: string -> Option<V>, imd: string, j: nat)
    requires LastDefinition(Split(imd, '\n'), j)
    ensures Key(Split(imd, '\n')[j]) in SiParse(eval, imd)
    ensures SiParse(eval, imd)[Key(Split(imd, '\n')[j])] == ValParse(eval, RawValue(Split(imd, '\n')[j]))
  {
    TagsOfLastWins(eval, Split(imd, '\n'), j);
  }

  /** Appending a line without `=` to a description leaves the parsed map unchanged. */
  lemma {:induction false} LineWithoutAssignmentIgnored<V>(eval: string -> Option<V>, imd: string, line: string)
    requires '=' !in line && '\n' !in line
    ensures SiParse(eval, imd + "\n" + line) == SiParse(eval, imd)
  {
    var whole := imd + "\n" + line;
    var n := |imd|;
    assert whole[n] == '\n';
    assert whole[..n] == imd;
    assert whole[n + 1..] == line;
    SplitAppendLine(imd, line);
    var lines := Split(whole, '\n');
    assert lines[..|lines| - 1] == Split(imd, '\n');
  }

  /** Splitting `a + "\n" + b` at newlines, when `b` has none, gives the lines of `a` followed by `b`. */
  lemma {:induction false} SplitAppendLine(a: string, b: string)
    requires '\n' !in b
    ensures Split(a + "\n" + b, '\n') == Split(a, '\n') + [b]
  {
    var s := a + "\n" + b;
    if a == [] {
      assert s == ['\n'] + b;
      assert s[1..] == b;
      SplitNoSep(b, '\n');
    } else {
      assert s[1..] == a[1..] + "\n" + b;
      SplitAppendLine(a[1..], b);
      SplitNoSep(b, '\n');
    }
  }

  lemma {:induction false} SplitNoSep(s: string, sep: char)
    requires sep !in s
    ensures Split(s, sep) == [s]
  {
    if s != [] {
      SplitNoSep(s[1..], sep);
      assert [s[0]] + s[1..] == s;
    }
  }
}
