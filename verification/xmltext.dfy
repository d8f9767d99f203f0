/** `extractTextFromXml` of the PMC full-text route: restrict a JATS/XML
    document to its first `<body …>…</body>` region, replace every tag by a
    space, decode five character entities one after the other, collapse
    whitespace runs and trim. Every step is a total function on strings. */
module XmlText {
  import opened Common
  import opened JsText

  const BodyOpen := "<body"
  const BodyClose := "</body>"

  // ---------------------------------------------------------------------
  // Step 1: the body region, `xml.match(/<body[^>]*>([\s\S]*?)<\/body>/i)`

  /** Index of the first `c` in `s` at or after `from`, or `|s|` when there is none. */
  function IndexFrom(s: string, c: char, from: nat): (k: nat)
    requires from <= |s|
    ensures from <= k <= |s|
    ensures k < |s| ==> s[k] == c
    decreases |s| - from
  {
    if from == |s| || s[from] == c then from else IndexFrom(s, c, from + 1)
  }

  /** Index of the first `</body>` (any ASCII case) at or after `from`, or `|s|`. */
  function CloseFrom(s: string, from: nat): (k: nat)
    requires from <= |s|
    ensures from <= k <= |s|
    ensures k < |s| ==> MatchesAtIgnoreCase(s, k, BodyClose)
    decreases |s| - from
  {
    if from == |s| || MatchesAtIgnoreCase(s, from, BodyClose) then from else CloseFrom(s, from + 1)
  }

  /** The match of the body pattern that starts at index `i`, given as the
      bounds of its capture group: `<body` in any case, everything up to the
      first `>`, then the shortest run of characters up to `</body>`. */
  function BodyMatchAt(s: string, i: nat): (m: Option<(nat, nat)>)
    requires i <= |s|
    ensures m.Some? ==> var (a, b) := m.value;
      && i + |BodyOpen| < a <= b
      && b + |BodyClose| <= |s|
  {
    if !MatchesAtIgnoreCase(s, i, BodyOpen) then None
    else
      var gt := IndexFrom(s, '>', i + |BodyOpen|);
      if gt == |s| then None
      else
        var close := CloseFrom(s, gt + 1);
        if close == |s| then None else Some((gt + 1, close))
  }

  /** `String.prototype.match` without the `g` flag: the leftmost index at
      or after `from` where the pattern matches, or `|s| + 1` when it
      matches nowhere. */
  function FirstBodyMatch(s: string, from: nat): (i: nat)
    requires from <= |s|
    ensures from <= i <= |s| + 1
    ensures i <= |s| ==> BodyMatchAt(s, i).Some?
    decreases |s| - from
  {
    if BodyMatchAt(s, from).Some? then from
    else if from == |s| then |s| + 1
    else FirstBodyMatch(s, from + 1)
  }

  /** The part of the document the rest of the pipeline sees: the first
      body region if the pattern matches, the whole document otherwise. */
  function BodySection(xml: string): (r: string)
    ensures |r| <= |xml|
  {
    var i := FirstBodyMatch(xml, 0);
    if i <= |xml| then
      var (a, b) := BodyMatchAt(xml, i).value;
      xml[a..b]
    else xml
  }

  /** A pattern whose first character is `<` and nowhere else cannot match
      ignoring case at an index `j` that lies less than `|p|` before a `<`
      at index `e`, unless `j == e`. */
  lemma AngleBlocksMatch(s: string, p: string, j: nat, e: nat)
    requires j < e < |s| && e < j + |p|
    requires s[e] == '<'
    requires forall k :: 1 <= k < |p| ==> AsciiLower(p[k]) != '<'
    ensures !MatchesAtIgnoreCase(s, j, p)
  {
    var k := e - j;
    assert !SameLetterAt(s, j, p, k);
  }

  /** Ignoring case, a match that lies inside `t` lies inside `s` when `s`
      agrees with `t` on that stretch. */
  lemma MatchesAtShift(s: string, off: nat, t: string, j: nat, p: string)
    requires off + |t| <= |s|
    requires j + |p| <= |t|
    requires forall k :: 0 <= k < |t| ==> s[off + k] == t[k]
    ensures MatchesAtIgnoreCase(s, off + j, p) <==> MatchesAtIgnoreCase(t, j, p)
  {
    if MatchesAtIgnoreCase(s, off + j, p) {
      forall k | 0 <= k < |p| ensures SameLetterAt(t, j, p, k) {
        assert SameLetterAt(s, off + j, p, k);
        assert s[off + j + k] == t[j + k];
      }
    }
    var i := off + j;
    if MatchesAtIgnoreCase(t, j, p) {
      forall k | 0 <= k < |p| ensures SameLetterAt(s, i, p, k) {
        assert SameLetterAt(t, j, p, k);
        assert s[i + k] == t[j + k];
      }
    }
  }

  /** No body match starts inside a prefix `pre` of `s` that holds no
      `<body`, when a `<` follows it. */
  lemma NoBodyMatchInPrefix(s: string, pre: string)
    requires |pre| < |s| && s[|pre|] == '<'
    requires forall k :: 0 <= k < |pre| ==> s[k] == pre[k]
    requires forall j :: 0 <= j <= |pre| ==> !MatchesAtIgnoreCase(pre, j, BodyOpen)
    ensures forall j :: 0 <= j < |pre| ==> !MatchesAtIgnoreCase(s, j, BodyOpen)
  {
    forall j | 0 <= j < |pre|
      ensures !MatchesAtIgnoreCase(s, j, BodyOpen)
    {
      if j + |BodyOpen| <= |pre| {
        MatchesAtShift(s, 0, pre, j, BodyOpen);
      } else {
        AngleBlocksMatch(s, BodyOpen, j, |pre|);
      }
    }
  }

  /** `IndexFrom` finds the `>` that ends a run of characters other than `>`. */
  lemma {:induction false} IndexFromIs(s: string, from: nat, g: nat)
    requires from <= g < |s| && s[g] == '>'
    requires forall j :: from <= j < g ==> s[j] != '>'
    ensures IndexFrom(s, '>', from) == g
    decreases g - from
  {
    if from < g {
      IndexFromIs(s, from + 1, g);
    }
  }

  /** `CloseFrom` finds the first `</body>` at or after `from`. */
  lemma {:induction false} CloseFromAt(s: string, from: nat, b: nat)
    requires from <= b < |s| && MatchesAtIgnoreCase(s, b, BodyClose)
    requires forall j :: from <= j < b ==> !MatchesAtIgnoreCase(s, j, BodyClose)
    ensures CloseFrom(s, from) == b
    decreases b - from
  {
    if from < b {
      assert !MatchesAtIgnoreCase(s, from, BodyClose);
      CloseFromAt(s, from + 1, b);
    }
  }

  /** `CloseFrom` finds the `</body>` that follows a stretch `mid` holding
      no `</body>`. */
  lemma CloseFromIs(s: string, a: nat, mid: string)
    requires a + |mid| + |BodyClose| <= |s|
    requires forall k :: 0 <= k < |mid| ==> s[a + k] == mid[k]
    requires MatchesAtIgnoreCase(s, a + |mid|, BodyClose) && s[a + |mid|] == '<'
    requires forall j :: 0 <= j <= |mid| ==> !MatchesAtIgnoreCase(mid, j, BodyClose)
    ensures CloseFrom(s, a) == a + |mid|
  {
    var b := a + |mid|;
    forall j | a <= j < b
      ensures !MatchesAtIgnoreCase(s, j, BodyClose)
    {
      if j + |BodyClose| <= b {
        MatchesAtShift(s, a, mid, j - a, BodyClose);
      } else {
        AngleBlocksMatch(s, BodyClose, j, b);
      }
    }
    CloseFromAt(s, a, b);
  }

  /** The match at an opening tag `<body` at `i` whose first `>` is at
      `g`, followed by `mid` and `</body>`. */
  lemma BodyMatchAtOpen(s: string, i: nat, g: nat, mid: string)
    requires i + |BodyOpen| <= g && g + 1 + |mid| + |BodyClose| <= |s|
    requires MatchesAtIgnoreCase(s, i, BodyOpen)
    requires forall j :: i + |BodyOpen| <= j < g ==> s[j] != '>'
    requires s[g] == '>'
    requires forall k :: 0 <= k < |mid| ==> s[g + 1 + k] == mid[k]
    requires MatchesAtIgnoreCase(s, g + 1 + |mid|, BodyClose) && s[g + 1 + |mid|] == '<'
    requires forall j :: 0 <= j <= |mid| ==> !MatchesAtIgnoreCase(mid, j, BodyClose)
    ensures BodyMatchAt(s, i) == Some((g + 1, g + 1 + |mid|))
  {
    var b := g + 1 + |mid|;
    assert IndexFrom(s, '>', i + |BodyOpen|) == g by {
      IndexFromIs(s, i + |BodyOpen|, g);
    }
    assert CloseFrom(s, g + 1) == b by {
      CloseFromIs(s, g + 1, mid);
    }
    BodyMatchAtIs(s, i, g, b);
  }

  /** The match at `i` is read off where `>` and `</body>` were found. */
  lemma BodyMatchAtIs(s: string, i: nat, g: nat, b: nat)
    requires i + |BodyOpen| <= g < b < |s|
    requires MatchesAtIgnoreCase(s, i, BodyOpen)
    requires IndexFrom(s, '>', i + |BodyOpen|) == g
    requires CloseFrom(s, g + 1) == b
    ensures BodyMatchAt(s, i) == Some((g + 1, b))
  {
  }

  /** The leftmost match at or after `from` is at `i` when there is one
      at `i` and no `<body` between `from` and `i`. */
  lemma {:induction false} FirstBodyMatchIs(s: string, from: nat, i: nat)
    requires from <= i <= |s| && BodyMatchAt(s, i).Some?
    requires forall j :: from <= j < i ==> !MatchesAtIgnoreCase(s, j, BodyOpen)
    ensures FirstBodyMatch(s, from) == i
    decreases i - from
  {
    if from < i {
      assert !MatchesAtIgnoreCase(s, from, BodyOpen);
      FirstBodyMatchIs(s, from + 1, i);
    }
  }

  /** Where the parts of `pre + open + attrs + ">" + mid + close + post`
      lie, for any `open` and `close`. */
  lemma LayoutAt(pre: string, open: string, attrs: string, mid: string, close: string, post: string)
    requires |open| > 0 && |close| > 0 && '>' !in attrs
    ensures var s := pre + open + attrs + ">" + mid + close + post;
      var g := |pre| + |open| + |attrs|;
      var b := g + 1 + |mid|;
      && |s| == b + |close| + |post|
      && (forall k :: 0 <= k < |pre| ==> s[k] == pre[k])
      && MatchesAtIgnoreCase(s, |pre|, open) && s[|pre|] == open[0]
      && (forall j :: |pre| + |open| <= j < g ==> s[j] != '>')
      && s[g] == '>'
      && (forall k :: 0 <= k < |mid| ==> s[g + 1 + k] == mid[k])
      && MatchesAtIgnoreCase(s, b, close) && s[b] == close[0]
  {
    var s := pre + open + attrs + ">" + mid + close + post;
    var i0 := |pre|;
    var g := i0 + |open| + |attrs|;
    var b := g + 1 + |mid|;
    assert forall k :: 0 <= k < |open| ==> s[i0 + k] == open[k];
    assert forall k :: 0 <= k < |attrs| ==> s[i0 + |open| + k] == attrs[k];
    assert forall k :: 0 <= k < |close| ==> s[b + k] == close[k];
    assert forall k :: 0 <= k < |open| ==> SameLetterAt(s, i0, open, k);
    assert forall k :: 0 <= k < |close| ==> SameLetterAt(s, b, close, k);
    forall j | i0 + |open| <= j < g
      ensures s[j] != '>'
    {
      assert s[j] == attrs[j - i0 - |open|] && s[j] in attrs;
    }
  }

  /** The body section of `s`, given where `pre`, the opening tag with
      its attributes (up to the `>` at `g`), `mid` and `</body>` lie in it. */
  lemma BodyMatchFound(s: string, pre: string, g: nat, mid: string)
    requires |pre| + |BodyOpen| <= g && g + 1 + |mid| + |BodyClose| <= |s|
    requires forall k :: 0 <= k < |pre| ==> s[k] == pre[k]
    requires MatchesAtIgnoreCase(s, |pre|, BodyOpen) && s[|pre|] == '<'
    requires forall j :: |pre| + |BodyOpen| <= j < g ==> s[j] != '>'
    requires s[g] == '>'
    requires forall k :: 0 <= k < |mid| ==> s[g + 1 + k] == mid[k]
    requires MatchesAtIgnoreCase(s, g + 1 + |mid|, BodyClose) && s[g + 1 + |mid|] == '<'
    requires forall j :: 0 <= j <= |pre| ==> !MatchesAtIgnoreCase(pre, j, BodyOpen)
    requires forall j :: 0 <= j <= |mid| ==> !MatchesAtIgnoreCase(mid, j, BodyClose)
    ensures BodySection(s) == s[g + 1..g + 1 + |mid|]
  {
    BodyMatchAtOpen(s, |pre|, g, mid);
    SectionAfterPrefix(s, pre, g + 1, g + 1 + |mid|);
  }

  /** When a prefix `pre` of `s` holds no `<body`, a `<` follows it and a
      match starts there, that match gives the body section. */
  lemma SectionAfterPrefix(s: string, pre: string, a: nat, b: nat)
    requires |pre| < |s| && s[|pre|] == '<'
    requires forall k :: 0 <= k < |pre| ==> s[k] == pre[k]
    requires forall j :: 0 <= j <= |pre| ==> !MatchesAtIgnoreCase(pre, j, BodyOpen)
    requires BodyMatchAt(s, |pre|) == Some((a, b))
    ensures a <= b <= |s| && BodySection(s) == s[a..b]
  {
    NoBodyMatchInPrefix(s, pre);
    FirstBodyMatchIs(s, 0, |pre|);
  }

  /** Only the body region reaches the output: for any prefix `pre`
      without `<body` and any `post`, the result is the normalized text of
      `mid` alone. */
  lemma BodyRegionOnly(pre: string, attrs: string, mid: string, post: string)
    requires forall j :: 0 <= j <= |pre| ==> !MatchesAtIgnoreCase(pre, j, BodyOpen)
    requires '>' !in attrs
    requires forall j :: 0 <= j <= |mid| ==> !MatchesAtIgnoreCase(mid, j, BodyClose)
    ensures BodySection(pre + BodyOpen + attrs + ">" + mid + BodyClose + post) == mid
    ensures ExtractText(pre + BodyOpen + attrs + ">" + mid + BodyClose + post) == NormalizeText(mid)
  {
    var head := pre + BodyOpen + attrs + ">";
    var s := head + mid + BodyClose + post;
    var g := |pre| + |BodyOpen| + |attrs|;
    LayoutAt(pre, BodyOpen, attrs, mid, BodyClose, post);
    BodyMatchFound(s, pre, g, mid);
    MiddleSlice(head, mid, BodyClose, post);
  }

  /** The stretch after `x` in `x + m + y + z` is `m`. */
  lemma MiddleSlice(x: string, m: string, y: string, z: string)
    ensures (x + m + y + z)[|x|..|x| + |m|] == m
  {
    var s := x + m + y + z;
    assert forall k :: 0 <= k < |m| ==> s[|x| + k] == m[k];
  }

  // ---------------------------------------------------------------------
  // Step 2: tags, `.replace(/<\/?[^>]+(>|$)/g, " ")`

  /** A tag starts at index 0: a `<` followed by at least one character
      other than `>` (a `/` counts as that character). */
  predicate TagStart(s: string) {
    |s| >= 2 && s[0] == '<' && s[1] != '>'
  }

  /** Index just past the tag at the start of `s`: past the first `>`, or
      the end of `s` when no `>` follows. */
  function TagEnd(s: string): (k: nat)
    requires TagStart(s)
    ensures 2 <= k <= |s|
  {
    var gt := IndexFrom(s, '>', 1);
    if gt < |s| then gt + 1 else |s|
  }

  /** Every `<` left is immediately followed by `>` or ends the string, so
      the tag pattern has nothing more to match. */
  predicate NoTagLeft(s: string) {
    forall i :: 0 <= i < |s| - 1 && s[i] == '<' ==> s[i + 1] == '>'
  }

  /** Replace each tag, scanning left to right, by one space. */
  function StripTags(s: string): (r: string)
    ensures |r| <= |s|
    ensures |s| > 0 ==> |r| > 0
    ensures |s| > 0 && s[0] != '<' ==> r[0] == s[0]
    ensures NoTagLeft(r)
    decreases |s|
  {
    if |s| == 0 then ""
    else if TagStart(s) then " " + StripTags(s[TagEnd(s)..])
    else [s[0]] + StripTags(s[1..])
  }

  /** Text without tags passes through unchanged. */
  lemma {:induction false} StripTagsKeepsTagFree(s: string)
    requires NoTagLeft(s)
    ensures StripTags(s) == s
    decreases |s|
  {
    if |s| > 0 {
      assert !TagStart(s);
      assert NoTagLeft(s[1..]) by {
        forall i | 0 <= i < |s[1..]| - 1 && s[1..][i] == '<'
          ensures s[1..][i + 1] == '>'
        {
          assert s[i + 1] == '<';
        }
      }
      StripTagsKeepsTagFree(s[1..]);
    }
  }

  /** Stripping tags twice is stripping them once. */
  lemma StripTagsIdempotent(s: string)
    ensures StripTags(StripTags(s)) == StripTags(s)
  {
    StripTagsKeepsTagFree(StripTags(s));
  }

  /** A closed tag `<t>` is replaced by exactly one space. */
  lemma TagBecomesSpace(t: string, u: string)
    requires |t| > 0
    requires forall i :: 0 <= i < |t| ==> t[i] != '>'
    ensures StripTags("<" + t + ">" + u) == " " + StripTags(u)
  {
    var s := "<" + t + ">" + u;
    assert s[1] == t[0];
    assert TagStart(s);
    assert s[|t| + 1] == '>';
    assert forall j :: 1 <= j < |t| + 1 ==> s[j] == t[j - 1];
    IndexFromIs(s, 1, |t| + 1);
    assert s[|t| + 2..] == u;
  }

  /** A `<` that is never closed removes everything after it. */
  lemma UnterminatedTagRemoved(t: string)
    requires |t| > 0
    requires forall i :: 0 <= i < |t| ==> t[i] != '>'
    ensures StripTags("<" + t) == " "
  {
    var s := "<" + t;
    assert s[1] == t[0];
    assert TagStart(s);
    assert IndexFrom(s, '>', 1) == |s|;
  }

  // ---------------------------------------------------------------------
  // Step 3: entities, five global replacements applied in sequence

  /** The entities, in the order they are decoded, and their characters. */
  const EntityNames: seq<string> := ["&amp;", "&lt;", "&gt;", "&quot;", "&#39;"]
  const EntityChars: seq<char> := ['&', '<', '>', '"', '\'']

  /** Passes `from` to 4 applied to `s`. */
  function DecodeFrom(s: string, from: nat): (r: string)
    requires from <= 5
    ensures |r| <= |s|
    decreases 5 - from
  {
    if from == 5 then s
    else DecodeFrom(ReplaceAll(s, EntityNames[from], [EntityChars[from]]), from + 1)
  }

  /** Five global replacements applied one after the other. `&amp;` goes
      first, so an escaped entity such as `&amp;lt;` is decoded twice. */
  function DecodeEntities(s: string): (r: string)
    ensures |r| <= |s|
  {
    DecodeFrom(s, 0)
  }

  /** The four entities decoded after `&amp;` never survive decoding. */
  predicate NoEscapesLeft(s: string) {
    !Contains(s, "&lt;") && !Contains(s, "&gt;") && !Contains(s, "&quot;") && !Contains(s, "&#39;")
  }

  /** The table spelled out. */
  lemma EntityTable()
    ensures EntityNames[0] == "&amp;" && EntityChars[0] == '&'
    ensures EntityNames[1] == "&lt;" && EntityChars[1] == '<'
    ensures EntityNames[2] == "&gt;" && EntityChars[2] == '>'
    ensures EntityNames[3] == "&quot;" && EntityChars[3] == '"'
    ensures EntityNames[4] == "&#39;" && EntityChars[4] == '\''
  {
  }

  /** `c` does not occur in `q`. */
  predicate CharNotIn(c: char, q: string) {
    forall i :: 0 <= i < |q| ==> q[i] != c
  }

  /** From `&lt;` on, no pass writes a character of its own entity or of
      an entity decoded before it. */
  lemma EntityCharsOutside(k: nat, k': nat)
    requires 1 <= k <= k' < 5
    ensures CharNotIn(EntityChars[k'], EntityNames[k])
  {
  }

  /** The passes from `from` on cannot bring back entity `k`, which an
      earlier pass removed. */
  lemma {:induction false} LaterPassesKeepAbsent(s: string, k: nat, from: nat)
    requires 1 <= k < from <= 5
    requires !Contains(s, EntityNames[k])
    ensures !Contains(DecodeFrom(s, from), EntityNames[k])
    decreases 5 - from
  {
    if from < 5 {
      EntityCharsOutside(k, from);
      ReplaceAllKeepsAbsent(s, EntityNames[from], EntityChars[from], EntityNames[k]);
      LaterPassesKeepAbsent(ReplaceAll(s, EntityNames[from], [EntityChars[from]]), k, from + 1);
    }
  }

  /** Whatever the input, entity `k` (for `k >= 1`) is gone after pass `k`
      and stays gone. */
  lemma {:induction false} DecodeFromRemoves(s: string, from: nat, k: nat)
    requires from <= k && 1 <= k < 5
    ensures !Contains(DecodeFrom(s, from), EntityNames[k])
    decreases k - from
  {
    var next := ReplaceAll(s, EntityNames[from], [EntityChars[from]]);
    if from == k {
      EntityCharsOutside(k, k);
      ReplaceAllRemoves(s, EntityNames[k], EntityChars[k]);
      LaterPassesKeepAbsent(next, k, k + 1);
    } else {
      DecodeFromRemoves(next, from + 1, k);
    }
  }

  lemma DecodeLeavesNoEscapes(s: string)
    ensures NoEscapesLeft(DecodeEntities(s))
  {
    DecodeFromRemoves(s, 0, 1);
    DecodeFromRemoves(s, 0, 2);
    DecodeFromRemoves(s, 0, 3);
    DecodeFromRemoves(s, 0, 4);
  }

  // ---------------------------------------------------------------------
  // Step 4: whitespace, `.replace(/\s+/g, " ").trim()`

  /** Every whitespace character is a plain space and no two are adjacent. */
  predicate Collapsed(s: string) {
    && (forall i :: 0 <= i < |s| && IsSpace(s[i]) ==> s[i] == ' ')
    && (forall i :: 0 <= i < |s| - 1 ==> !(IsSpace(s[i]) && IsSpace(s[i + 1])))
  }

  /** Each maximal whitespace run becomes a single space. */
  function CollapseSpaces(s: string): (r: string)
    ensures |r| <= |s|
    ensures Collapsed(r)
    ensures |s| > 0 ==> |r| > 0 && (IsSpace(s[0]) <==> IsSpace(r[0]))
    ensures |s| > 0 && !IsSpace(s[0]) ==> r[0] == s[0]
    decreases |s|
  {
    if |s| == 0 then ""
    else if IsSpace(s[0]) then " " + CollapseSpaces(s[LeadingSpaces(s)..])
    else [s[0]] + CollapseSpaces(s[1..])
  }

  /** Already collapsed text passes through unchanged. */
  lemma {:induction false} CollapseKeepsCollapsed(s: string)
    requires Collapsed(s)
    ensures CollapseSpaces(s) == s
    decreases |s|
  {
    if |s| > 0 {
      assert Collapsed(s[1..]) by {
        assert forall i :: 0 <= i < |s[1..]| ==> s[1..][i] == s[i + 1];
      }
      CollapseKeepsCollapsed(s[1..]);
      if IsSpace(s[0]) {
        assert LeadingSpaces(s) == 1 by {
          if |s| > 1 {
            assert !IsSpace(s[1]);
          }
        }
      }
    }
  }

  /** If collapsed text starts with `u`, and `u` holds no whitespace, the
      original text started with `u` too. */
  lemma {:induction false} CollapsePrefix(t: string, u: string)
    requires forall i :: 0 <= i < |u| ==> !IsSpace(u[i])
    requires StartsWith(CollapseSpaces(t), u)
    ensures StartsWith(t, u)
    decreases |t|
  {
    if |u| > 0 {
      var r := CollapseSpaces(t);
      assert r[0] == u[0] && !IsSpace(r[0]);
      assert r == [t[0]] + CollapseSpaces(t[1..]);
      assert StartsWith(CollapseSpaces(t[1..]), u[1..]) by {
        assert r[1..][..|u| - 1] == r[..|u|][1..];
      }
      CollapsePrefix(t[1..], u[1..]);
      assert t[..|u|] == [t[0]] + t[1..][..|u| - 1];
    }
  }

  /** Collapsing whitespace cannot create a whitespace-free pattern. */
  lemma {:induction false} CollapseKeepsAbsent(s: string, q: string)
    requires |q| > 0
    requires forall i :: 0 <= i < |q| ==> !IsSpace(q[i])
    requires !Contains(s, q)
    ensures !Contains(CollapseSpaces(s), q)
    decreases |s|
  {
    var r := CollapseSpaces(s);
    if |s| > 0 {
      if IsSpace(s[0]) {
        var k := LeadingSpaces(s);
        if Contains(s[k..], q) {
          ContainsSuffix(s, k, q);
        }
        CollapseKeepsAbsent(s[k..], q);
        assert r[1..] == CollapseSpaces(s[k..]);
        HeadsDiffer(r, q);
      } else {
        CollapseKeepsAbsent(s[1..], q);
        assert r[1..] == CollapseSpaces(s[1..]);
        if StartsWith(r, q) {
          assert StartsWith(CollapseSpaces(s[1..]), q[1..]) by {
            assert r[1..][..|q| - 1] == r[..|q|][1..];
          }
          CollapsePrefix(s[1..], q[1..]);
          assert false;
        }
      }
    }
  }

  /** Any infix of collapsed text is collapsed. */
  lemma CollapsedInfix(s: string, a: nat, b: nat)
    requires a <= b <= |s|
    requires Collapsed(s)
    ensures Collapsed(s[a..b])
  {
    assert forall i :: 0 <= i < b - a ==> s[a..b][i] == s[a + i];
  }

  /** The whitespace step: collapse runs, then trim. */
  function NormalizeSpace(s: string): (r: string)
    ensures |r| <= |s|
    ensures NoEdgeSpace(r)
    ensures Collapsed(r)
  {
    var c := CollapseSpaces(s);
    CollapsedInfix(c, LeadingSpaces(c), LeadingSpaces(c) + |Trim(c)|);
    Trim(c)
  }

  /** Normalizing whitespace a second time changes nothing. */
  lemma NormalizeSpaceIdempotent(s: string)
    ensures NormalizeSpace(NormalizeSpace(s)) == NormalizeSpace(s)
  {
    CollapseKeepsCollapsed(NormalizeSpace(s));
  }

  // ---------------------------------------------------------------------
  // The whole pipeline

  /** Steps 2 to 4 applied to a region of the document. */
  function NormalizeText(section: string): (r: string)
    ensures |r| <= |section|
    ensures NoEdgeSpace(r) && Collapsed(r)
  {
    NormalizeSpace(DecodeEntities(StripTags(section)))
  }

  /** `extractTextFromXml`: total, never longer than its input, and its
      output has no whitespace at either end, only single plain spaces
      inside. */
  function ExtractText(xml: string): (r: string)
    ensures |r| <= |xml|
    ensures NoEdgeSpace(r) && Collapsed(r)
  {
    NormalizeText(BodySection(xml))
  }

  /** Normalizing whitespace cannot create a whitespace-free pattern. */
  lemma NormalizeSpaceKeepsAbsent(s: string, q: string)
    requires |q| > 0
    requires forall i :: 0 <= i < |q| ==> !IsSpace(q[i])
    requires !Contains(s, q)
    ensures !Contains(NormalizeSpace(s), q)
  {
    var c := CollapseSpaces(s);
    CollapseKeepsAbsent(s, q);
    var a := LeadingSpaces(c);
    var b := a + |Trim(c)|;
    if Contains(c[a..b], q) {
      ContainsInfix(c, a, b, q);
    }
  }

  /** The output contains no `&lt;`, `&gt;`, `&quot;` or `&#39;`; `&amp;`
      can survive (see `EscapedAmpersandDecodedOnce`). */
  lemma ExtractTextLeavesNoEscapes(xml: string)
    ensures NoEscapesLeft(ExtractText(xml))
  {
    var d := DecodeEntities(StripTags(BodySection(xml)));
    DecodeLeavesNoEscapes(StripTags(BodySection(xml)));
    NormalizeKeepsNoEscapes(d);
  }

  /** Whitespace normalization brings back none of the four entities. */
  lemma NormalizeKeepsNoEscapes(s: string)
    requires NoEscapesLeft(s)
    ensures NoEscapesLeft(NormalizeSpace(s))
  {
    NormalizeKeepsPrintableAbsent(s, "&lt;");
    NormalizeKeepsPrintableAbsent(s, "&gt;");
    NormalizeKeepsPrintableAbsent(s, "&quot;");
    NormalizeKeepsPrintableAbsent(s, "&#39;");
  }

  /** Every character of `q` is printable ASCII (`!` to `~`). */
  predicate Printable(q: string) {
    forall i :: 0 <= i < |q| ==> '!' <= q[i] <= '~'
  }

  /** Whitespace normalization cannot create a word of printable ASCII. */
  lemma NormalizeKeepsPrintableAbsent(s: string, q: string)
    requires |q| > 0 && Printable(q) && !Contains(s, q)
    ensures !Contains(NormalizeSpace(s), q)
  {
    assert forall i :: 0 <= i < |q| ==> !IsSpace(q[i]);
    NormalizeSpaceKeepsAbsent(s, q);
  }

  /** Clean prose (no tags, no entities, whitespace already normalized)
      is a fixed point of steps 2 to 4, and of the whole extraction, since
      it holds no `<body` for step 1 to cut at. */
  lemma CleanProseIsFixed(s: string)
    requires NoTagLeft(s) && NoEscapesLeft(s) && !Contains(s, "&amp;")
    requires NoEdgeSpace(s) && Collapsed(s)
    ensures NormalizeText(s) == s
    ensures ExtractText(s) == s
  {
    assert BodySection(s) == s by {
      TagFreeHasNoBodyOpen(s);
      NoOpenTagNoBody(s);
    }
    assert StripTags(s) == s by {
      StripTagsKeepsTagFree(s);
    }
    assert DecodeEntities(s) == s by {
      DecodeKeepsPlain(s);
    }
    NormalizeSpaceFixes(s);
  }

  /** Text in which no tag can start holds no `<body` either. */
  lemma TagFreeHasNoBodyOpen(s: string)
    requires NoTagLeft(s)
    ensures forall j :: 0 <= j <= |s| ==> !MatchesAtIgnoreCase(s, j, BodyOpen)
  {
    forall j | 0 <= j <= |s|
      ensures !MatchesAtIgnoreCase(s, j, BodyOpen)
    {
      if j + |BodyOpen| <= |s| {
        if s[j] == '<' {
          assert s[j + 1] == '>';
          assert !SameLetterAt(s, j, BodyOpen, 1);
        } else {
          assert !SameLetterAt(s, j, BodyOpen, 0);
        }
      }
    }
  }

  /** Extraction is not idempotent: escaped markup comes out as a tag,
      which a second extraction strips to nothing. The fixed-point
      property holds for clean prose only (`CleanProseIsFixed`). */
  lemma ExtractTextNotIdempotent(t: string)
    requires 0 < |t| <= 10
    requires forall i :: 0 <= i < |t| ==> t[i] != '&' && t[i] != '<' && t[i] != '>' && !IsSpace(t[i])
    ensures ExtractText("&lt;" + t + "&gt;") == "<" + t + ">"
    ensures ExtractText(ExtractText("&lt;" + t + "&gt;")) == ""
  {
    EscapedMarkupSurvives(t);
    ShortTagExtractsEmpty(t);
  }

  /** A document that is one short tag extracts to nothing: it is too
      short to hold a body region, the tag becomes a space and the space
      is trimmed away. */
  lemma ShortTagExtractsEmpty(t: string)
    requires 0 < |t| <= 10
    requires forall i :: 0 <= i < |t| ==> t[i] != '>'
    ensures ExtractText("<" + t + ">") == ""
  {
    var x := "<" + t + ">";
    assert BodySection(x) == x by {
      WholeDocumentIffNoMatch(x);
    }
    assert StripTags(x) == " " by {
      assert x == "<" + t + ">" + "";
      TagBecomesSpace(t, "");
    }
    assert DecodeEntities(" ") == " " by {
      SpaceHasNoEntity();
      DecodeKeepsPlain(" ");
    }
    var c := CollapseSpaces(" ");
    assert c == " ";
    TrimAllSpace(c);
  }

  /** A single space contains none of the five entities. */
  lemma SpaceHasNoEntity()
    ensures NoEscapesLeft(" ") && !Contains(" ", "&amp;")
  {
    assert !StartsWith(" ", "&lt;") && !StartsWith(" "[1..], "&lt;");
  }

  /** Text with none of the five entities passes the decoding unchanged. */
  lemma DecodeKeepsPlain(s: string)
    requires NoEscapesLeft(s) && !Contains(s, "&amp;")
    ensures DecodeEntities(s) == s
  {
    EntityTable();
  }

  /** Collapsed text without edge whitespace is already normalized. */
  lemma NormalizeSpaceFixes(s: string)
    requires NoEdgeSpace(s) && Collapsed(s)
    ensures NormalizeSpace(s) == s
  {
    CollapseKeepsCollapsed(s);
  }

  // ---------------------------------------------------------------------
  // Order of the steps, on concrete inputs

  /** A body match starts with `<`. */
  lemma BodyMatchHasAngle(s: string, i: nat)
    requires i <= |s| && BodyMatchAt(s, i).Some?
    ensures '<' in s
  {
    assert SameLetterAt(s, i, BodyOpen, 0);
    assert s[i] == '<';
  }

  /** A document without any `<` has no body region. */
  lemma NoAngleNoBody(s: string)
    requires '<' !in s
    ensures BodySection(s) == s
  {
    var i := FirstBodyMatch(s, 0);
    if i <= |s| {
      BodyMatchHasAngle(s, i);
      assert false;
    }
  }

  /** When the scan from `from` finds nothing, the pattern matches at no
      index from `from` on. */
  lemma {:induction false} FirstBodyMatchNone(s: string, from: nat)
    requires from <= |s| && FirstBodyMatch(s, from) == |s| + 1
    ensures forall i :: from <= i <= |s| ==> BodyMatchAt(s, i).None?
    decreases |s| - from
  {
    if from < |s| {
      FirstBodyMatchNone(s, from + 1);
    }
  }

  /** The whole document is used exactly when the body pattern matches
      nowhere in it; a match always leaves out at least the tags. */
  lemma WholeDocumentIffNoMatch(s: string)
    ensures BodySection(s) == s <==> forall i :: 0 <= i <= |s| ==> BodyMatchAt(s, i).None?
    ensures (exists i :: 0 <= i <= |s| && BodyMatchAt(s, i).Some?) ==> |BodySection(s)| < |s|
  {
    var i := FirstBodyMatch(s, 0);
    if i <= |s| {
      var (a, b) := BodyMatchAt(s, i).value;
      assert |BodySection(s)| == b - a < |s|;
    } else {
      FirstBodyMatchNone(s, 0);
    }
  }

  /** A document without `<body` in any case has no body region. */
  lemma NoOpenTagNoBody(s: string)
    requires forall j :: 0 <= j <= |s| ==> !MatchesAtIgnoreCase(s, j, BodyOpen)
    ensures BodySection(s) == s
  {
    WholeDocumentIffNoMatch(s);
  }

  /** A pass whose pattern has a character that does not occur in `s`
      leaves `s` unchanged. */
  lemma PassSkips(s: string, p: string, rep: string, j: nat)
    requires |p| > 0 && j < |p| && p[j] !in s
    ensures ReplaceAll(s, p, rep) == s
  {
    if Contains(s, p) {
      ContainsHasChars(s, p, j);
    }
  }

  /** `&amp;` is decoded first, so an escaped `&lt;` ends up as `<`. */
  lemma EscapedEntityDecodedTwice()
    ensures DecodeEntities("&amp;lt;") == "<"
  {
    ReplaceAllHead("lt;", "&amp;", "&");
    assert "&amp;lt;" == "&amp;" + "lt;";
    PassSkips("lt;", "&amp;", "&", 0);
    assert "&" + "lt;" == "&lt;" + "";
    ReplaceAllHead("", "&lt;", "<");
    PassSkips("<", "&gt;", ">", 0);
    PassSkips("<", "&quot;", "\"", 0);
    PassSkips("<", "&#39;", "'", 0);
  }

  /** A doubly escaped ampersand loses only one level of escaping. */
  lemma EscapedAmpersandDecodedOnce()
    ensures DecodeEntities("&amp;amp;") == "&amp;"
  {
    var x := "&amp;amp;";
    var y := "&amp;";
    assert DecodeFrom(y, 1) == y by {
      AmpSurvivesLaterPasses();
    }
    EntityTable();
    AmpPassOnEscapedAmp();
    DecodeStep(x, 0, y);
  }

  /** The passes after the `&amp;` pass leave `&amp;` alone. */
  lemma AmpSurvivesLaterPasses()
    ensures DecodeFrom("&amp;", 1) == "&amp;"
  {
    var y := "&amp;";
    EntityTable();
    SkipsAmp("&lt;", "<", 1);
    DecodeStep(y, 1, y);
    SkipsAmp("&gt;", ">", 1);
    DecodeStep(y, 2, y);
    SkipsAmp("&quot;", "\"", 1);
    DecodeStep(y, 3, y);
    SkipsAmp("&#39;", "'", 1);
    DecodeStep(y, 4, y);
  }

  /** A pattern with a letter outside `&amp;` leaves `&amp;` unchanged. */
  lemma SkipsAmp(p: string, rep: string, j: nat)
    requires j < |p| && p[j] !in {'&', 'a', 'm', 'p', ';'}
    ensures ReplaceAll("&amp;", p, rep) == "&amp;"
  {
    PassSkips("&amp;", p, rep, j);
  }

  /** The `&amp;` pass turns `&amp;amp;` into `&amp;` and stops there. */
  lemma AmpPassOnEscapedAmp()
    ensures ReplaceAll("&amp;amp;", "&amp;", "&") == "&amp;"
  {
    assert "&amp;amp;" == "&amp;" + "amp;";
    ReplaceAllHead("amp;", "&amp;", "&");
    PassSkips("amp;", "&amp;", "&", 0);
  }

  /** One decoding pass, as a step from stage `k` to stage `k + 1`. */
  lemma DecodeStep(s: string, k: nat, s': string)
    requires k < 5
    requires ReplaceAll(s, EntityNames[k], [EntityChars[k]]) == s'
    ensures DecodeFrom(s, k) == DecodeFrom(s', k + 1)
  {
  }

  lemma EscapedTagAmpPass(t: string)
    requires '&' !in t
    ensures ReplaceAll("&lt;" + t + "&gt;", "&amp;", "&") == "&lt;" + t + "&gt;"
  {
    var x := "&lt;" + t + "&gt;";
    assert x == ['&'] + ("lt;" + t + "&gt;");
    assert !StartsWith(x, "&amp;") by {
      assert x[1] == 'l';
    }
    assert ReplaceAll(x, "&amp;", "&") == ['&'] + ReplaceAll("lt;" + t + "&gt;", "&amp;", "&");
    ReplaceAllSkip("lt;" + t, "&gt;", "&amp;", "&");
    PassSkips("&gt;", "&amp;", "&", 1);
  }

  lemma EscapedTagLtPass(t: string)
    requires '&' !in t
    ensures ReplaceAll("&lt;" + t + "&gt;", "&lt;", "<") == "<" + t + "&gt;"
  {
    ReplaceAllAround("&lt;", t, "&gt;", "<");
    PassSkips("&gt;", "&lt;", "<", 1);
  }

  lemma EscapedTagGtPass(t: string)
    requires '&' !in t
    ensures ReplaceAll("<" + t + "&gt;", "&gt;", ">") == "<" + t + ">"
  {
    ReplaceAllSkip("<" + t, "&gt;", "&gt;", ">");
    assert "&gt;" == "&gt;" + "";
    ReplaceAllHead("", "&gt;", ">");
  }

  /** Decoding the escaped form of a tag gives the tag itself. */
  lemma EscapedTagDecoded(t: string)
    requires '&' !in t
    ensures DecodeEntities("&lt;" + t + "&gt;") == "<" + t + ">"
  {
    var x := "&lt;" + t + "&gt;";
    var y := "<" + t + "&gt;";
    var z := "<" + t + ">";
    EntityTable();
    EscapedTagAmpPass(t);
    DecodeStep(x, 0, x);
    EscapedTagLtPass(t);
    DecodeStep(x, 1, y);
    EscapedTagGtPass(t);
    DecodeStep(y, 2, z);
    PassSkips(z, "&quot;", "\"", 0);
    DecodeStep(z, 3, z);
    PassSkips(z, "&#39;", "'", 0);
    DecodeStep(z, 4, z);
  }

  /** Tags are stripped before entities are decoded, so escaped markup
      comes out as literal markup: `&lt;b&gt;` gives `<b>`. */
  lemma EscapedMarkupSurvives(t: string)
    requires '&' !in t && '<' !in t
    requires forall i :: 0 <= i < |t| ==> !IsSpace(t[i])
    ensures ExtractText("&lt;" + t + "&gt;") == "<" + t + ">"
  {
    var x := "&lt;" + t + "&gt;";
    var z := "<" + t + ">";
    assert BodySection(x) == x && StripTags(x) == x by {
      EscapedHasNoAngle(t);
      NoAngleNoBody(x);
      StripTagsKeepsTagFree(x);
    }
    assert DecodeEntities(x) == z by {
      EscapedTagDecoded(t);
    }
    assert NormalizeSpace(z) == z by {
      BracketedIsNormal(t);
    }
  }

  /** The escaped form of a tag holds no `<` of its own. */
  lemma EscapedHasNoAngle(t: string)
    requires '<' !in t
    ensures '<' !in "&lt;" + t + "&gt;"
  {
    var x := "&lt;" + t + "&gt;";
    assert forall i :: 0 <= i < |x| ==> x[i] == '&' || x[i] == 'l' || x[i] == 't' || x[i] == ';' || x[i] == 'g' || x[i] in t;
  }

  /** A whitespace-free text between `<` and `>` is already normalized. */
  lemma BracketedIsNormal(t: string)
    requires forall i :: 0 <= i < |t| ==> !IsSpace(t[i])
    ensures NormalizeSpace("<" + t + ">") == "<" + t + ">"
  {
    var z := "<" + t + ">";
    assert forall i :: 0 <= i < |z| ==> z[i] == '<' || z[i] == '>' || z[i] == t[i - 1];
    NormalizeSpaceFixes(z);
  }

}
