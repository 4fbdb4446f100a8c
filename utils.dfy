/** src/utils.py: the `KEY: VALUE; KEY: VALUE` scanner behind `extrair_valores`
    and `extrair_chaves`, and the required-field check `campos_obrigatorios_ok`.

    The pattern `\s*([^:;]+)\s*:\s*([^;]+)\s*`, applied by `finditer`, is written
    out as a scanner over the remaining suffix of the text: from the current
    position, the key runs up to the first ':' or ';' and must be non-empty and
    end at a ':'; the value runs from there up to the next ';' (or the end) and
    must be non-empty. A match resumes the scan where it ended; a failed position
    resumes one character later. Because `\s` characters also belong to `[^:;]`
    and `[^;]`, a stripped group equals its stripped segment. */
module Utils {
  import opened Wrappers
  import opened Text
  import opened Cells

  /** One match: the text each group spans. Where the pattern's leading `\s*`
      absorbs a group's leading whitespace the group is shorter, but its strip,
      which is all the callers use, is the same. */
  datatype Match = Match(key: string, value: string)

  /** Index of the first ':' or ';', or the length. */
  function StopIndex(s: string): (q: nat)
    ensures q <= |s| && (q < |s| ==> s[q] == ':' || s[q] == ';')
    ensures forall j :: 0 <= j < q ==> s[j] != ':' && s[j] != ';'
  {
    if s == [] || s[0] == ':' || s[0] == ';' then 0 else 1 + StopIndex(s[1..])
  }

  /** Index of the first ';', or the length. */
  function SemiIndex(s: string): (r: nat)
    ensures r <= |s| && (r < |s| ==> s[r] == ';')
    ensures forall j :: 0 <= j < r ==> s[j] != ';'
  {
    if s == [] || s[0] == ';' then 0 else 1 + SemiIndex(s[1..])
  }

  predicate NoSeparator(s: string) {
    forall i :: 0 <= i < |s| ==> s[i] != ':' && s[i] != ';'
  }

  predicate NoSemicolon(s: string) {
    forall i :: 0 <= i < |s| ==> s[i] != ';'
  }

  /** Whether the pattern matches at the start of `s`: the index of the colon
      and the end of the match. */
  function MatchAt(s: string): (m: Option<(nat, nat)>)
    ensures m.Some? ==> 0 < m.value.0 < m.value.1 <= |s|
  {
    var q := StopIndex(s);
    if 0 < q < |s| && s[q] == ':' then
      var r := q + 1 + SemiIndex(s[q + 1..]);
      if r > q + 1 then Some((q, r)) else None
    else None
  }

  /** What a match spans: a key free of ':' and ';' ending at the colon, and a
      value free of ';' ending at a ';' or at the end. */
  lemma MatchAtShape(s: string)
    requires MatchAt(s).Some?
    ensures NoSeparator(s[..MatchAt(s).value.0]) && s[MatchAt(s).value.0] == ':'
    ensures NoSemicolon(s[MatchAt(s).value.0 + 1..MatchAt(s).value.1])
    ensures MatchAt(s).value.1 == |s| || s[MatchAt(s).value.1] == ';'
  {
  }

  /** The match found at the start of `s`, if any. */
  function Found(s: string): Option<Match> {
    match MatchAt(s)
    case Some((q, r)) => Some(Match(s[..q], s[q + 1..r]))
    case None => None
  }

  /** Where the scan resumes: after the match, or one character on. */
  function Advance(s: string): (n: nat)
    requires s != []
    ensures 0 < n <= |s|
  {
    match MatchAt(s)
    case Some((_, r)) => r
    case None => 1
  }

  function Emitted(m: Option<Match>): seq<Match> {
    if m.Some? then [m.value] else []
  }

  /** The matches `_DEF_PAIR_RE.finditer(s)` yields, left to right. */
  function Matches(s: string): seq<Match>
    decreases |s|
  {
    if s == [] then [] else Emitted(Found(s)) + Matches(s[Advance(s)..])
  }

  /** A scan step that finds a match: it is the next one, and the scan resumes after it. */
  lemma ScanMatch(rest: string, q: nat, e: nat)
    requires rest != [] && MatchAt(rest) == Some((q, e))
    ensures Found(rest) == Some(Match(rest[..q], rest[q + 1..e]))
    ensures Matches(rest) == [Found(rest).value] + Matches(rest[e..])
  {
  }

  /** A scan step without a match: the scan resumes one character on. */
  lemma ScanSkip(rest: string)
    requires rest != [] && MatchAt(rest).None?
    ensures Matches(rest) == Matches(rest[1..])
  {
  }

  /** `_DEF_PAIR_RE.finditer(s)`, run from left to right over the unscanned rest. */
  method FindIter(s: string) returns (ms: seq<Match>)
    ensures ms == Matches(s)
  {
    ms := [];
    var rest := s;
    while rest != []
      invariant ms + Matches(rest) == Matches(s)
      decreases |rest|
    {
      var m := MatchAt(rest);
      if m.Some? {
        var (q, e) := m.value;
        ScanMatch(rest, q, e);
        ConcatAssoc(ms, [Match(rest[..q], rest[q + 1..e])], Matches(rest[e..]));
        ms := ms + [Match(rest[..q], rest[q + 1..e])];
        rest := rest[e..];
      } else {
        ScanSkip(rest);
        rest := rest[1..];
      }
    }
  }

  /** `m.group(1).strip()` over the matches. */
  function Keys(ms: seq<Match>): (r: seq<string>)
    ensures |r| == |ms|
  {
    if ms == [] then [] else [Strip(ms[0].key)] + Keys(ms[1..])
  }

  /** `m.group(2).strip()` over the matches. */
  function Values(ms: seq<Match>): (r: seq<string>)
    ensures |r| == |ms|
  {
    if ms == [] then [] else [Strip(ms[0].value)] + Values(ms[1..])
  }

  lemma {:induction false} KeysValuesSnoc(ms: seq<Match>, m: Match)
    ensures Keys(ms + [m]) == Keys(ms) + [Strip(m.key)]
    ensures Values(ms + [m]) == Values(ms) + [Strip(m.value)]
  {
    if ms == [] {
      assert [m][1..] == [];
    } else {
      assert (ms + [m])[1..] == ms[1..] + [m];
      KeysValuesSnoc(ms[1..], m);
      ConcatAssoc([Strip(ms[0].key)], Keys(ms[1..]), [Strip(m.key)]);
      ConcatAssoc([Strip(ms[0].value)], Values(ms[1..]), [Strip(m.value)]);
    }
  }

  /** One more match of the prefix adds its stripped key and value. */
  lemma KeysValuesPrefix(ms: seq<Match>, i: nat)
    requires i < |ms|
    ensures Keys(ms[..i + 1]) == Keys(ms[..i]) + [Strip(ms[i].key)]
    ensures Values(ms[..i + 1]) == Values(ms[..i]) + [Strip(ms[i].value)]
  {
    assert ms[..i + 1] == ms[..i] + [ms[i]];
    KeysValuesSnoc(ms[..i], ms[i]);
  }

  lemma {:induction false} KeysAt(ms: seq<Match>, i: nat)
    requires i < |ms|
    ensures Keys(ms)[i] == Strip(ms[i].key)
  {
    if i > 0 {
      KeysAt(ms[1..], i - 1);
      assert ms[1..][i - 1] == ms[i];
    }
  }

  lemma {:induction false} ValuesAt(ms: seq<Match>, i: nat)
    requires i < |ms|
    ensures Values(ms)[i] == Strip(ms[i].value)
  {
    if i > 0 {
      ValuesAt(ms[1..], i - 1);
      assert ms[1..][i - 1] == ms[i];
    }
  }

  lemma KeysValuesAt(ms: seq<Match>, i: nat)
    requires i < |ms|
    ensures Keys(ms)[i] == Strip(ms[i].key) && Values(ms)[i] == Strip(ms[i].value)
  {
    KeysAt(ms, i);
    ValuesAt(ms, i);
  }

  /** `extrair_valores(especificacao)`: the stripped values of the matches,
      joined by single spaces; `""` for `None` or `""`. */
  method ExtrairValores(especificacao: Option<string>) returns (r: string)
    ensures especificacao.None? || especificacao.value == [] ==> r == ""
    ensures especificacao.Some? ==> r == Join(Values(Matches(especificacao.value)), " ")
  {
    if especificacao.None? || especificacao.value == [] {
      return "";
    }
    var ms := FindIter(especificacao.value);
    var vals: seq<string> := [];
    for i := 0 to |ms|
      invariant vals == Values(ms[..i])
    {
      KeysValuesPrefix(ms, i);
      vals := vals + [Strip(ms[i].value)];
    }
    assert ms[..|ms|] == ms;
    r := Join(vals, " ");
  }

  /** `extrair_chaves(especificacao)`: the stripped keys of the same matches. */
  method ExtrairChaves(especificacao: Option<string>) returns (r: string)
    ensures especificacao.None? || especificacao.value == [] ==> r == ""
    ensures especificacao.Some? ==> r == Join(Keys(Matches(especificacao.value)), " ")
  {
    if especificacao.None? || especificacao.value == [] {
      return "";
    }
    var ms := FindIter(especificacao.value);
    var keys: seq<string> := [];
    for i := 0 to |ms|
      invariant keys == Keys(ms[..i])
    {
      KeysValuesPrefix(ms, i);
      keys := keys + [Strip(ms[i].key)];
    }
    assert ms[..|ms|] == ms;
    r := Join(keys, " ");
  }

  /** The value of `extrair_valores`, for the pages that call it. */
  function ValoresText(especificacao: Option<string>): (r: string)
    ensures especificacao.None? ==> r == ""
  {
    if especificacao.None? then "" else Join(Values(Matches(especificacao.value)), " ")
  }

  /** A stripped string is a contiguous piece of the original. */
  lemma StripSubstring(s: string)
    ensures exists a, b :: 0 <= a <= b <= |s| && Strip(s) == s[a..b]
  {
    var l := TrimLeft(s);
    var t := Strip(s);
    TrimLeftSuffix(s);
    TrimRightPrefix(l);
    assert l == s[|s| - |l|..];
    assert t == l[..|t|];
    assert t == s[|s| - |l|..|s| - |l| + |t|];
  }

  /** What `Strip` keeps of a string free of separators stays free of them. */
  lemma StripKeepsNoSeparator(x: string)
    ensures NoSeparator(x) ==> NoSeparator(Strip(x))
    ensures NoSemicolon(x) ==> NoSemicolon(Strip(x))
  {
    StripSubstring(x);
  }

  /** Neither end is whitespace: `x.strip() == x` (see `StrippedIff`). */
  predicate Stripped(x: string) {
    x == [] || (!IsSpace(x[0]) && !IsSpace(x[|x| - 1]))
  }

  lemma StrippedIff(x: string)
    ensures Stripped(x) <==> Strip(x) == x
  {
    if Strip(x) == x && x != [] {
      assert TrimLeft(x) == x;
    }
  }

  /** A match's key holds neither ':' nor ';', and its value no ';'. */
  predicate ShapedMatch(m: Match) {
    NoSeparator(m.key) && NoSemicolon(m.value)
  }

  lemma {:induction false} MatchesShape(s: string)
    ensures forall i :: 0 <= i < |Matches(s)| ==> ShapedMatch(Matches(s)[i])
    decreases |s|
  {
    if s != [] {
      var rest := Matches(s[Advance(s)..]);
      MatchesShape(s[Advance(s)..]);
      if Found(s).Some? {
        MatchAtShape(s);
      }
      var e := Emitted(Found(s));
      assert Matches(s) == e + rest;
      forall i | 0 <= i < |e + rest| ensures ShapedMatch((e + rest)[i]) {
        if i >= |e| {
          assert (e + rest)[i] == rest[i - |e|];
        }
      }
    }
  }

  /** The extracted keys and values come from the same matches, one each, and each
      is stripped; keys hold neither ':' nor ';' and values no ';'. */
  lemma ExtractedShape(s: string)
    ensures |Keys(Matches(s))| == |Values(Matches(s))| == |Matches(s)|
    ensures forall i :: 0 <= i < |Matches(s)| ==>
      Stripped(Keys(Matches(s))[i]) && NoSeparator(Keys(Matches(s))[i]) &&
      Stripped(Values(Matches(s))[i]) && NoSemicolon(Values(Matches(s))[i])
  {
    var ms := Matches(s);
    MatchesShape(s);
    forall i | 0 <= i < |ms|
      ensures Stripped(Keys(ms)[i]) && NoSeparator(Keys(ms)[i])
      ensures Stripped(Values(ms)[i]) && NoSemicolon(Values(ms)[i])
    {
      assert ShapedMatch(ms[i]);
      KeysValuesAt(ms, i);
      StripIdempotent(ms[i].key);
      StripIdempotent(ms[i].value);
      StrippedIff(Strip(ms[i].key));
      StrippedIff(Strip(ms[i].value));
      StripKeepsNoSeparator(ms[i].key);
      StripKeepsNoSeparator(ms[i].value);
    }
  }

  /** A ';' never starts a match: the scan moves past it. */
  lemma MatchesSemicolon(t: string)
    ensures Matches(";" + t) == Matches(t)
  {
    var s := ";" + t;
    assert StopIndex(s) == 0;
    assert s[1..] == t;
  }

  lemma {:induction false} StopIndexAppend(a: string, b: string)
    requires NoSeparator(a)
    requires b == [] || b[0] == ':' || b[0] == ';'
    ensures StopIndex(a + b) == |a|
    decreases |a|
  {
    if a != [] {
      assert (a + b)[1..] == a[1..] + b;
      StopIndexAppend(a[1..], b);
    } else {
      assert a + b == b;
    }
  }

  lemma {:induction false} SemiIndexAppend(a: string, b: string)
    requires NoSemicolon(a)
    requires b == [] || b[0] == ';'
    ensures SemiIndex(a + b) == |a|
    decreases |a|
  {
    if a != [] {
      assert (a + b)[1..] == a[1..] + b;
      SemiIndexAppend(a[1..], b);
    } else {
      assert a + b == b;
    }
  }

  /** A segment with no ':' contributes nothing: the scan runs through it to the ';'. */
  lemma {:induction false} SegmentWithoutColon(seg: string, rest: string)
    requires NoSeparator(seg)
    requires rest == [] || rest[0] == ';'
    ensures Matches(seg + rest) == Matches(rest)
    decreases |seg|
  {
    if seg != [] {
      SkipSegmentHead(seg, rest);
      NoSeparatorTail(seg);
      SegmentWithoutColon(seg[1..], rest);
    } else {
      assert seg + rest == rest;
    }
  }

  /** The scan steps over the first character of such a segment. */
  lemma SkipSegmentHead(seg: string, rest: string)
    requires NoSeparator(seg) && seg != []
    requires rest == [] || rest[0] == ';'
    ensures Matches(seg + rest) == Matches(seg[1..] + rest)
  {
    assert (seg + rest)[1..] == seg[1..] + rest;
    NoMatchInSegment(seg, rest);
    ScanSkipTo(seg + rest, seg[1..] + rest);
  }

  lemma ScanSkipTo(s: string, t: string)
    requires s != [] && MatchAt(s).None? && s[1..] == t
    ensures Matches(s) == Matches(t)
  {
    ScanSkip(s);
  }

  lemma NoSeparatorTail(seg: string)
    requires NoSeparator(seg) && seg != []
    ensures NoSeparator(seg[1..])
  {
    assert forall i :: 0 <= i < |seg[1..]| ==> seg[1..][i] == seg[i + 1];
  }

  /** No match starts inside a segment without ':' that a ';' or the end closes. */
  lemma NoMatchInSegment(seg: string, rest: string)
    requires NoSeparator(seg) && seg != []
    requires rest == [] || rest[0] == ';'
    ensures MatchAt(seg + rest).None?
  {
    var s := seg + rest;
    StopIndexAppend(seg, rest);
    assert StopIndex(s) == |seg|;
    if |seg| < |s| {
      assert s[|seg|] == rest[0];
    }
  }

  /** A key or value as the docstring writes them: non-empty, no surrounding whitespace. */
  predicate Trimmed(s: string) {
    s != [] && !IsSpace(s[0]) && !IsSpace(s[|s| - 1])
  }

  /** The key/value pairs of a well-formed specification text. */
  predicate WellFormed(ps: seq<Match>) {
    forall i :: 0 <= i < |ps| ==>
      Trimmed(ps[i].key) && NoSeparator(ps[i].key) && Trimmed(ps[i].value) && NoSemicolon(ps[i].value)
  }

  function Item(p: Match): string {
    p.key + ": " + p.value
  }

  /** `"K1: V1; K2: V2"` */
  function FormatSpec(ps: seq<Match>): string {
    Join(seq(|ps|, i requires 0 <= i < |ps| => Item(ps[i])), "; ")
  }

  lemma StripLead(lead: string, x: string)
    requires lead == "" || lead == " "
    requires Trimmed(x)
    ensures Strip(lead + x) == x
  {
    if lead == " " {
      assert (lead + x)[1..] == x;
      assert TrimLeft(lead + x) == TrimLeft(x);
    } else {
      assert lead + x == x;
    }
    StripNoEnds(x);
  }

  /** One well-formed item, preceded by at most one space and followed by the end
      or a ';', is one match and nothing else. */
  lemma {:induction false} MatchesItem(lead: string, p: Match, rest: string)
    requires lead == "" || lead == " "
    requires Trimmed(p.key) && NoSeparator(p.key) && Trimmed(p.value) && NoSemicolon(p.value)
    requires rest == [] || rest[0] == ';'
    ensures Matches(lead + Item(p) + rest) == [Match(lead + p.key, " " + p.value)] + Matches(rest)
  {
    var q: nat := |lead| + |p.key|;
    MatchAtItem(lead, p, rest);
    ItemSlices(lead, p, rest);
    MatchesFromSlices(lead + Item(p) + rest, q, q + 2 + |p.value|, lead + p.key, " " + p.value, rest);
  }

  lemma {:induction false} MatchesFromSlices(s: string, q: nat, r: nat, k: string, v: string, rest: string)
    requires s != [] && MatchAt(s) == Some((q, r))
    requires s[..q] == k && s[q + 1..r] == v && s[r..] == rest
    ensures Matches(s) == [Match(k, v)] + Matches(rest)
  {
    ScanMatch(s, q, r);
  }

  lemma ItemSlices(lead: string, p: Match, rest: string)
    ensures var s := lead + Item(p) + rest;
      var q := |lead| + |p.key|;
      s[..q] == lead + p.key && s[q + 1..q + 2 + |p.value|] == " " + p.value && s[q + 2 + |p.value|..] == rest
  {
    var s := lead + Item(p) + rest;
    assert s == (lead + p.key) + ":" + (" " + p.value) + rest;
  }

  lemma {:induction false} MatchAtItem(lead: string, p: Match, rest: string)
    requires lead == "" || lead == " "
    requires p.key != [] && NoSeparator(p.key) && p.value != [] && NoSemicolon(p.value)
    requires rest == [] || rest[0] == ';'
    ensures var q: nat := |lead| + |p.key|;
      MatchAt(lead + Item(p) + rest) == Some((q, q + 2 + |p.value|))
  {
    var s := lead + Item(p) + rest;
    var q: nat := |lead| + |p.key|;
    ItemStop(lead, p, rest);
    ItemSemi(lead, p, rest);
    assert 0 < q < |s|;
  }

  lemma ItemStop(lead: string, p: Match, rest: string)
    requires lead == "" || lead == " "
    requires NoSeparator(p.key)
    ensures var s := lead + Item(p) + rest;
      StopIndex(s) == |lead| + |p.key| && s[|lead| + |p.key|] == ':'
  {
    var s := lead + Item(p) + rest;
    assert NoSeparator(lead + p.key);
    assert s == (lead + p.key) + (": " + p.value + rest);
    StopIndexAppend(lead + p.key, ": " + p.value + rest);
  }

  lemma ItemSemi(lead: string, p: Match, rest: string)
    requires NoSemicolon(p.value)
    requires rest == [] || rest[0] == ';'
    ensures var s := lead + Item(p) + rest;
      SemiIndex(s[|lead| + |p.key| + 1..]) == 1 + |p.value|
  {
    var s := lead + Item(p) + rest;
    assert s[|lead| + |p.key| + 1..] == (" " + p.value) + rest;
    assert NoSemicolon(" " + p.value);
    SemiIndexAppend(" " + p.value, rest);
  }

  lemma KeysValuesCons(m: Match, ms: seq<Match>)
    ensures Keys([m] + ms) == [Strip(m.key)] + Keys(ms)
    ensures Values([m] + ms) == [Strip(m.value)] + Values(ms)
  {
    assert ([m] + ms)[1..] == ms;
  }

  /** The text of more than one item is the first item, "; " and the rest. */
  lemma FormatSpecCons(ps: seq<Match>)
    requires |ps| > 1
    ensures FormatSpec(ps) == Item(ps[0]) + (";" + (" " + FormatSpec(ps[1..])))
  {
    var items := seq(|ps|, i requires 0 <= i < |ps| => Item(ps[i]));
    var tail := ps[1..];
    assert items[1..] == seq(|tail|, i requires 0 <= i < |tail| => Item(tail[i]));
  }

  lemma FormatSpecOne(p: Match)
    ensures FormatSpec([p]) == Item(p)
  {
  }

  /** The scanned match of a well-formed item has the item's key and value once stripped. */
  lemma HeadStripped(lead: string, p: Match)
    requires lead == "" || lead == " "
    requires Trimmed(p.key) && Trimmed(p.value)
    ensures Strip(lead + p.key) == Strip(p.key) && Strip(" " + p.value) == Strip(p.value)
  {
    StripLead(lead, p.key);
    StripLead(" ", p.value);
    StripNoEnds(p.key);
    StripNoEnds(p.value);
  }

  lemma RoundTripOne(p: Match, lead: string)
    requires WellFormed([p])
    requires lead == "" || lead == " "
    ensures Keys(Matches(lead + FormatSpec([p]))) == Keys([p])
    ensures Values(Matches(lead + FormatSpec([p]))) == Values([p])
  {
    assert Trimmed(p.key) && NoSeparator(p.key) && Trimmed(p.value) && NoSemicolon(p.value) by {
      assert [p][0] == p;
    }
    FormatSpecOne(p);
    MatchesItem(lead, p, []);
    assert lead + FormatSpec([p]) == lead + Item(p) + [];
    assert Matches(lead + FormatSpec([p])) == [Match(lead + p.key, " " + p.value)] + [];
    HeadStripped(lead, p);
  }

  lemma {:induction false} RoundTripCons(ps: seq<Match>, lead: string)
    requires |ps| > 1 && WellFormed(ps)
    requires lead == "" || lead == " "
    requires Keys(Matches(" " + FormatSpec(ps[1..]))) == Keys(ps[1..])
    requires Values(Matches(" " + FormatSpec(ps[1..]))) == Values(ps[1..])
    ensures Keys(Matches(lead + FormatSpec(ps))) == Keys(ps)
    ensures Values(Matches(lead + FormatSpec(ps))) == Values(ps)
  {
    var p := ps[0];
    var tail := ps[1..];
    var ms := Matches(" " + FormatSpec(tail));
    ConsMatches(ps, lead);
    HeadStripped(lead, p);
    KeysValuesFromCons(Match(lead + p.key, " " + p.value), ms, p, tail);
    assert ps == [p] + tail;
  }

  lemma {:induction false} ConsMatches(ps: seq<Match>, lead: string)
    requires |ps| > 1 && WellFormed(ps)
    requires lead == "" || lead == " "
    ensures Matches(lead + FormatSpec(ps)) ==
      [Match(lead + ps[0].key, " " + ps[0].value)] + Matches(" " + FormatSpec(ps[1..]))
  {
    var p := ps[0];
    var rest := ";" + (" " + FormatSpec(ps[1..]));
    FormatSpecCons(ps);
    assert lead + FormatSpec(ps) == lead + Item(p) + rest;
    MatchesItem(lead, p, rest);
    MatchesSemicolon(" " + FormatSpec(ps[1..]));
  }

  lemma KeysValuesFromCons(head: Match, ms: seq<Match>, p: Match, tail: seq<Match>)
    requires Strip(head.key) == Strip(p.key) && Strip(head.value) == Strip(p.value)
    requires Keys(ms) == Keys(tail) && Values(ms) == Values(tail)
    ensures Keys([head] + ms) == Keys([p] + tail) && Values([head] + ms) == Values([p] + tail)
  {
    KeysValuesCons(head, ms);
    KeysValuesCons(p, tail);
  }

  /** Scanning a well-formed text gives back exactly its keys and values. */
  lemma {:induction false} FormatRoundTrip(ps: seq<Match>, lead: string)
    requires WellFormed(ps)
    requires lead == "" || lead == " "
    ensures Keys(Matches(lead + FormatSpec(ps))) == Keys(ps)
    ensures Values(Matches(lead + FormatSpec(ps))) == Values(ps)
    decreases |ps|
  {
    if |ps| == 0 {
      if lead == " " {
        assert StopIndex(" ") == 1;
        assert " "[1..] == [];
      }
    } else if |ps| == 1 {
      assert ps == [ps[0]];
      RoundTripOne(ps[0], lead);
    } else {
      FormatRoundTrip(ps[1..], " ");
      RoundTripCons(ps, lead);
    }
  }

  /** A well-formed pair list is its own stripped keys and values. */
  lemma WellFormedStripped(ps: seq<Match>)
    requires WellFormed(ps)
    ensures forall i :: 0 <= i < |ps| ==> Values(ps)[i] == ps[i].value && Keys(ps)[i] == ps[i].key
  {
    forall i | 0 <= i < |ps| ensures Values(ps)[i] == ps[i].value && Keys(ps)[i] == ps[i].key {
      PairStripped(ps[i]);
      KeysValuesAt(ps, i);
    }
  }

  lemma PairStripped(m: Match)
    requires Trimmed(m.key) && Trimmed(m.value)
    ensures Strip(m.key) == m.key && Strip(m.value) == m.value
  {
    StripNoEnds(m.key);
    StripNoEnds(m.value);
  }

  /** The docstring's claim: a well-formed text yields its values joined by spaces,
      and its keys likewise. */
  lemma ExtrairWellFormed(ps: seq<Match>)
    requires WellFormed(ps)
    ensures Join(Values(Matches(FormatSpec(ps))), " ") == Join(Values(ps), " ")
    ensures Join(Keys(Matches(FormatSpec(ps))), " ") == Join(Keys(ps), " ")
    ensures forall i :: 0 <= i < |ps| ==> Values(ps)[i] == ps[i].value && Keys(ps)[i] == ps[i].key
  {
    FormatRoundTrip(ps, "");
    assert "" + FormatSpec(ps) == FormatSpec(ps);
    WellFormedStripped(ps);
  }

  // ---------------------------------------------------------------------------
  // campos_obrigatorios_ok

  /** `v is None or v == ""`, or, when zeros are invalid, a numeric 0 (`False` included). */
  predicate IsMissing(v: Value, zerosInvalidos: bool) {
    v == VNull || v == VStr("") || (zerosInvalidos && IsNumericZero(v))
  }

  /** The keys of `d`, in dict order, whose values are missing. */
  function MissingKeys(d: seq<(string, Value)>, zerosInvalidos: bool): seq<string> {
    if d == [] then []
    else (if IsMissing(d[0].1, zerosInvalidos) then [d[0].0] else []) + MissingKeys(d[1..], zerosInvalidos)
  }

  lemma {:induction false} MissingKeysAppend(d: seq<(string, Value)>, e: (string, Value), z: bool)
    ensures MissingKeys(d + [e], z) == MissingKeys(d, z) + (if IsMissing(e.1, z) then [e.0] else [])
  {
    if d == [] {
      assert [e][1..] == [];
    } else {
      assert (d + [e])[1..] == d[1..] + [e];
      MissingKeysAppend(d[1..], e, z);
    }
  }

  /** `campos_obrigatorios_ok(d, zeros_invalidos)`; a dict is its items in order. */
  method CamposObrigatoriosOk(d: seq<(string, Value)>, zerosInvalidos: bool) returns (ok: bool, vazios: seq<string>)
    ensures vazios == MissingKeys(d, zerosInvalidos)
    ensures ok <==> vazios == []
  {
    vazios := [];
    for i := 0 to |d|
      invariant vazios == MissingKeys(d[..i], zerosInvalidos)
    {
      assert d[..i + 1] == d[..i] + [d[i]];
      MissingKeysAppend(d[..i], d[i], zerosInvalidos);
      var (k, v) := d[i];
      if v == VNull || v == VStr("") {
        vazios := vazios + [k];
      } else if zerosInvalidos && IsNumber(v) && PyEq(v, VInt(0)) {
        vazios := vazios + [k];
      }
    }
    assert d[..|d|] == d;
    ok := |vazios| == 0;
  }

  predicate UniqueKeys(d: seq<(string, Value)>) {
    forall i, j :: 0 <= i < j < |d| ==> d[i].0 != d[j].0
  }

  /** A key is listed exactly when its value is missing. */
  lemma {:induction false} MissingKeysMember(d: seq<(string, Value)>, z: bool, i: nat)
    requires UniqueKeys(d) && i < |d|
    ensures d[i].0 in MissingKeys(d, z) <==> IsMissing(d[i].1, z)
  {
    if i == 0 {
      MissingKeysOnlyFrom(d[1..], z, d[0].0);
    } else {
      MissingKeysMember(d[1..], z, i - 1);
    }
  }

  /** Only keys of `d` are listed. */
  lemma {:induction false} MissingKeysOnlyFrom(d: seq<(string, Value)>, z: bool, k: string)
    requires forall j :: 0 <= j < |d| ==> d[j].0 != k
    ensures k !in MissingKeys(d, z)
  {
    if d != [] {
      MissingKeysOnlyFrom(d[1..], z, k);
    }
  }

  /** With `zeros_invalidos=False` a numeric 0 is never listed. */
  lemma ZerosAllowed(d: seq<(string, Value)>, i: nat)
    requires UniqueKeys(d) && i < |d| && IsNumericZero(d[i].1)
    ensures d[i].0 !in MissingKeys(d, false)
    ensures d[i].0 in MissingKeys(d, true)
  {
    MissingKeysMember(d, false, i);
    MissingKeysMember(d, true, i);
  }
}
