/** Pulling the HTML out of a language model's reply: the reply is stripped
    of surrounding whitespace; if it holds a ```html fence the text after the
    first such fence up to the next ``` is kept, else if it holds a bare ```
    fence the text between the first two fences is kept; the kept text is
    stripped again. Python's `str.strip`, `in` and `str.split` are modelled
    as they behave on strings of code points. */
module Fence {
  import opened Types

  const HtmlFence: string := "```html"
  const BareFence: string := "```"

  /** Python's whitespace (`str.isspace`), the characters `str.strip()`
      removes. */
  predicate IsSpace(c: char)
  {
    var n := c as int;
    || 9 <= n <= 13 || 28 <= n <= 32 || n == 0x85 || n == 0xA0 || n == 0x1680
    || 0x2000 <= n <= 0x200A || n == 0x2028 || n == 0x2029 || n == 0x202F
    || n == 0x205F || n == 0x3000
  }

  /** `s` without its leading whitespace: a suffix of `s` that is empty or
      starts with a non-space. */
  function StripLeft(s: string): (r: string)
    ensures |r| <= |s| && r == s[|s| - |r|..]
    ensures r == [] || !IsSpace(r[0])
  {
    if s != [] && IsSpace(s[0]) then StripLeft(s[1..]) else s
  }

  /** `s` without its trailing whitespace: a prefix of `s` that is empty or
      ends with a non-space. */
  function StripRight(s: string): (r: string)
    ensures |r| <= |s| && r == s[..|r|]
    ensures r == [] || !IsSpace(r[|r| - 1])
  {
    if s != [] && IsSpace(s[|s| - 1]) then StripRight(s[..|s| - 1]) else s
  }

  /** Everything `StripLeft` drops is whitespace. */
  lemma {:induction false} StripLeftDrops(s: string)
    ensures forall i :: 0 <= i < |s| - |StripLeft(s)| ==> IsSpace(s[i])
  {
    if s != [] && IsSpace(s[0]) {
      StripLeftDrops(s[1..]);
      forall i | 1 <= i < |s| - |StripLeft(s)|
        ensures IsSpace(s[i])
      {
        assert s[i] == s[1..][i - 1];
      }
    }
  }

  /** Everything `StripRight` drops is whitespace. */
  lemma {:induction false} StripRightDrops(s: string)
    ensures forall i :: |StripRight(s)| <= i < |s| ==> IsSpace(s[i])
  {
    if s != [] && IsSpace(s[|s| - 1]) {
      StripRightDrops(s[..|s| - 1]);
      forall i | |StripRight(s)| <= i < |s| - 1
        ensures IsSpace(s[i])
      {
        assert s[i] == s[..|s| - 1][i];
      }
    }
  }

  /** `t` occurs in `s` at index `i`. */
  predicate InfixAt(t: string, s: string, i: int)
  {
    0 <= i && i + |t| <= |s| && s[i..i + |t|] == t
  }

  /** Python's `str.strip()`: `s` without leading and trailing whitespace;
      the result neither begins nor ends with whitespace. */
  function Strip(s: string): (r: string)
    ensures r == [] || (!IsSpace(r[0]) && !IsSpace(r[|r| - 1]))
  {
    StripRight(StripLeft(s))
  }

  /** Stripping keeps the text after the leading whitespace. */
  lemma StripOccurs(s: string)
    ensures InfixAt(Strip(s), s, |s| - |StripLeft(s)|)
  {
    var x := StripLeft(s);
    var r := StripRight(x);
    var i := |s| - |x|;
    assert r == x[..|r|] && x == s[i..];
    assert s[i..][..|r|] == s[i..i + |r|];
  }

  /** What `Strip` removes is whitespace: everything before the result's
      place in `s` (given by `StripOccurs`) and everything after it. */
  lemma StripSpec(s: string)
    ensures var lead := |s| - |StripLeft(s)|;
      && (forall i :: 0 <= i < lead ==> IsSpace(s[i]))
      && (forall i :: lead + |Strip(s)| <= i < |s| ==> IsSpace(s[i]))
  {
    var x := StripLeft(s);
    StripLeftDrops(s);
    StripRightDrops(x);
    forall i | |s| - |x| + |StripRight(x)| <= i < |s|
      ensures IsSpace(s[i])
    {
      assert s[i] == x[i - (|s| - |x|)];
    }
  }

  /** A string that neither begins nor ends with whitespace is unchanged by
      stripping; in particular stripping twice is stripping once. */
  lemma StripStripped(s: string)
    requires s == [] || (!IsSpace(s[0]) && !IsSpace(s[|s| - 1]))
    ensures Strip(s) == s
  {
  }

  lemma StripIdempotent(s: string)
    ensures Strip(Strip(s)) == Strip(s)
  {
    StripStripped(Strip(s));
  }

  /** The first index at or after `from` where `t` occurs in `s`. */
  function FindFrom(s: string, t: string, from: nat): (r: Option<nat>)
    decreases |s| - from
    ensures r.Some? ==> from <= r.value && InfixAt(t, s, r.value)
    ensures forall j :: from <= j && (r.None? || j < r.value) ==> !InfixAt(t, s, j)
  {
    if from + |t| > |s| then None
    else if s[from..from + |t|] == t then Some(from)
    else FindFrom(s, t, from + 1)
  }

  /** Python's `str.find`, with no index for -1: the first occurrence of
      `t` in `s`. */
  function Find(s: string, t: string): (r: Option<nat>)
    ensures r.Some? ==> InfixAt(t, s, r.value)
    ensures forall j :: 0 <= j && (r.None? || j < r.value) ==> !InfixAt(t, s, j)
  {
    FindFrom(s, t, 0)
  }

  /** Python's `t in s`. */
  predicate Contains(s: string, t: string)
  {
    Find(s, t).Some?
  }

  /** `in` holds exactly when `t` occurs somewhere in `s`. */
  lemma ContainsIffOccurs(s: string, t: string)
    ensures Contains(s, t) <==> exists i :: InfixAt(t, s, i)
  {
    if Contains(s, t) {
      assert InfixAt(t, s, Find(s, t).value);
    }
  }

  /** An occurrence with none before it is the one `Find` returns. */
  lemma FindFirst(s: string, t: string, k: nat)
    requires InfixAt(t, s, k)
    requires forall m :: 0 <= m < k ==> !InfixAt(t, s, m)
    ensures Find(s, t) == Some(k)
  {
  }

  /** Occurrence is transitive: `a` at `x` in `b`, and `b` at `y` in `c`,
      put `a` at `x + y` in `c`. */
  lemma InfixTrans(a: string, b: string, c: string, x: int, y: int)
    requires InfixAt(a, b, x) && InfixAt(b, c, y)
    ensures InfixAt(a, c, x + y)
  {
    forall k | 0 <= k < |a|
      ensures c[x + y + k] == a[k]
    {
      assert a[k] == b[x + k] && b[x + k] == c[y + x + k];
    }
  }

  /** A string occurring in `b` has no separator when `b` has none. */
  lemma NoneInInfix(a: string, b: string, x: int, sep: string)
    requires InfixAt(a, b, x) && !Contains(b, sep)
    ensures !Contains(a, sep)
  {
    if Contains(a, sep) {
      InfixTrans(sep, a, b, Find(a, sep).value, x);
    }
  }

  /** The text before the first `sep` in `s`, or all of `s` when there is
      none: a prefix of `s` without `sep`, followed in `s` by `sep` when
      `s` contains one. */
  function UpTo(s: string, sep: string): (r: string)
    requires |sep| > 0
    ensures |r| <= |s| && r == s[..|r|]
    ensures !Contains(r, sep)
    ensures Contains(s, sep) <==> InfixAt(sep, s, |r|)
    ensures forall j :: 0 <= j < |r| ==> !InfixAt(sep, s, j)
    ensures !Contains(s, sep) ==> r == s
  {
    match Find(s, sep)
    case None => s
    case Some(k) =>
      var r := s[..k];
      assert !Contains(r, sep) by {
        if Contains(r, sep) {
          InfixTrans(sep, r, s, Find(r, sep).value, 0);
        }
      }
      r
  }

  /** The pieces joined back with `sep` between them. */
  function Join(parts: seq<string>, sep: string): string
  {
    if |parts| <= 1 then (if parts == [] then "" else parts[0])
    else parts[0] + sep + Join(parts[1..], sep)
  }

  /** Python's `s.split(sep)`: the pieces between the occurrences of `sep`
      found left to right without overlap. There are two or more exactly
      when `s` contains `sep`; the first is the text before the first `sep`
      and the second the text after it up to the next. */
  function Split(s: string, sep: string): (parts: seq<string>)
    requires |sep| > 0
    decreases |s|
    ensures |parts| >= 1 && parts[0] == UpTo(s, sep)
    ensures |parts| >= 2 <==> Contains(s, sep)
    ensures Contains(s, sep) ==> parts[1] == UpTo(s[Find(s, sep).value + |sep|..], sep)
  {
    if !Contains(s, sep) then [s]
    else
      var k := Find(s, sep).value;
      UpToFirst(s, sep);
      [s[..k]] + Split(s[k + |sep|..], sep)
  }

  /** When `s` contains `sep`, `UpTo` cuts at the index `Find` returns. */
  lemma UpToFirst(s: string, sep: string)
    requires |sep| > 0 && Contains(s, sep)
    ensures UpTo(s, sep) == s[..Find(s, sep).value]
  {
  }

  /** One step of `Split`: the text before the first `sep`, then the pieces
      of the text after it. */
  lemma SplitStep(s: string, sep: string)
    requires |sep| > 0 && Contains(s, sep)
    ensures var k := Find(s, sep).value;
      Split(s, sep) == [s[..k]] + Split(s[k + |sep|..], sep)
  {
  }

  /** Joining the pieces with `sep` gives `s` back. */
  lemma {:induction false} SplitJoin(s: string, sep: string)
    requires |sep| > 0
    decreases |s|
    ensures Join(Split(s, sep), sep) == s
  {
    if Contains(s, sep) {
      var k := Find(s, sep).value;
      var rest := s[k + |sep|..];
      SplitStep(s, sep);
      SplitJoin(rest, sep);
      Around(s, sep, k);
    }
  }

  /** An occurrence of `t` at `k` cuts `s` into the text before it, `t` and
      the text after it. */
  lemma Around(s: string, t: string, k: nat)
    requires InfixAt(t, s, k)
    ensures s == s[..k] + t + s[k + |t|..]
  {
    assert s == s[..k] + s[k..k + |t|] + s[k + |t|..];
  }

  /** None of `parts` contains `sep`. */
  predicate NoneContains(parts: seq<string>, sep: string)
  {
    parts == [] || (!Contains(parts[0], sep) && NoneContains(parts[1..], sep))
  }

  /** No piece contains `sep`. */
  lemma {:induction false} SplitPiecesLackSep(s: string, sep: string)
    requires |sep| > 0
    decreases |s|
    ensures NoneContains(Split(s, sep), sep)
  {
    if Contains(s, sep) {
      var k := Find(s, sep).value;
      var rest := s[k + |sep|..];
      var parts := Split(s, sep);
      SplitStep(s, sep);
      SplitPiecesLackSep(rest, sep);
      assert !Contains(parts[0], sep) by {
        assert parts[0] == UpTo(s, sep);
      }
      assert parts[1..] == Split(rest, sep);
    }
  }

  /** The HTML kept from a reply: neither begins nor ends with whitespace,
      and is the whole stripped reply when that holds no fence. */
  function Extract(reply: string): (html: string)
    ensures html == [] || (!IsSpace(html[0]) && !IsSpace(html[|html| - 1]))
    ensures !Contains(Strip(reply), BareFence) ==> html == Strip(reply)
  {
    var stripped := Strip(reply);
    if Contains(stripped, HtmlFence) then
      HtmlFenceIsFence(stripped);
      HtmlFenced(stripped)
    else if Contains(stripped, BareFence) then BareFenced(stripped)
    else stripped
  }

  /** The ```html branch: the second piece of the split at ```html, cut at
      its first ```, stripped. */
  function HtmlFenced(stripped: string): string
    requires Contains(stripped, HtmlFence)
  {
    Strip(Split(Split(stripped, HtmlFence)[1], BareFence)[0])
  }

  /** The bare ``` branch: the second piece of the split at ```, stripped. */
  function BareFenced(stripped: string): string
    requires Contains(stripped, BareFence)
  {
    Strip(Split(stripped, BareFence)[1])
  }

  /** Every ```html fence is a ``` fence. */
  lemma HtmlFenceIsFence(s: string)
    requires Contains(s, HtmlFence)
    ensures Contains(s, BareFence)
  {
    var i := Find(s, HtmlFence).value;
    assert s[i..i + 3] == s[i..i + 7][..3];
    assert InfixAt(BareFence, s, i);
  }

  /** A reply without a fence is kept whole, stripped. */
  lemma ExtractUnfenced(reply: string)
    requires !Contains(Strip(reply), BareFence)
    ensures Extract(reply) == Strip(reply)
  {
    if Contains(Strip(reply), HtmlFence) {
      HtmlFenceIsFence(Strip(reply));
    }
  }

  /** A bare fence without a ```html one: the kept text is the text after
      the first ``` up to the next ``` (or the end), stripped. */
  lemma ExtractBareFence(reply: string)
    requires !Contains(Strip(reply), HtmlFence) && Contains(Strip(reply), BareFence)
    ensures var stripped := Strip(reply);
      Extract(reply) == Strip(UpTo(stripped[Find(stripped, BareFence).value + 3..], BareFence))
  {
  }

  /** The first ``` after the ```html fence begins before the next ```html
      does but runs into it (four or five backticks in a row). */
  predicate FenceOverlapsHtmlFence(after: string)
  {
    && Contains(after, HtmlFence) && Contains(after, BareFence)
    && Find(after, BareFence).value < Find(after, HtmlFence).value < Find(after, BareFence).value + 3
  }

  /** What the ```html branch keeps from the stripped reply `stripped`: the
      text after the first ```html up to the next ``` (or the end),
      stripped; when that ``` runs into a further ```html, Python's split
      cuts at the ```html instead, and the text up to it is kept. */
  predicate HtmlFenceKeeps(stripped: string, kept: string)
    requires Contains(stripped, HtmlFence)
  {
    var after := stripped[Find(stripped, HtmlFence).value + 7..];
    if FenceOverlapsHtmlFence(after) then kept == Strip(UpTo(after, HtmlFence))
    else kept == Strip(UpTo(after, BareFence))
  }

  /** A ```html fence takes precedence over any bare fence. */
  lemma ExtractHtmlFence(reply: string)
    requires Contains(Strip(reply), HtmlFence)
    ensures HtmlFenceKeeps(Strip(reply), Extract(reply))
  {
    HtmlFencedContent(Strip(reply));
  }

  /** `ExtractHtmlFence` for the ```html branch on its own. */
  lemma HtmlFencedContent(stripped: string)
    requires Contains(stripped, HtmlFence)
    ensures HtmlFenceKeeps(stripped, HtmlFenced(stripped))
  {
    var after := stripped[Find(stripped, HtmlFence).value + 7..];
    var piece := Split(stripped, HtmlFence)[1];
    assert piece == UpTo(after, HtmlFence);
    assert Split(piece, BareFence)[0] == UpTo(piece, BareFence);
    FenceBeforeNextHtmlFence(after);
  }

  /** Cutting at the next ```html and then at the first ``` is cutting at
      the first ```, except when that ``` runs into the next ```html: then
      it is cutting at the ```html, a different place, and the ``` begins
      four backticks in a row. */
  lemma FenceBeforeNextHtmlFence(after: string)
    ensures !FenceOverlapsHtmlFence(after) ==>
      UpTo(UpTo(after, HtmlFence), BareFence) == UpTo(after, BareFence)
    ensures FenceOverlapsHtmlFence(after) ==>
      && UpTo(UpTo(after, HtmlFence), BareFence) == UpTo(after, HtmlFence) != UpTo(after, BareFence)
      && InfixAt("````", after, Find(after, BareFence).value)
  {
    var piece := UpTo(after, HtmlFence);
    if Contains(after, HtmlFence) {
      var j := |piece|;
      HtmlFenceIsFence(after);
      var k := Find(after, BareFence).value;
      assert InfixAt(BareFence, after, j) by {
        assert after[j..j + 3] == after[j..j + 7][..3];
      }
      if k + 3 <= j {
        FenceInPrefix(after, j, k);
      } else {
        NoFenceInPrefix(after, j, k);
        if k < j {
          assert after[k..k + 4] == "````" by {
            assert after[k..k + 3] == BareFence;
            assert after[j..j + 3] == BareFence;
            assert after[k + 3] == after[j..j + 3][k + 3 - j];
          }
        }
      }
    }
  }

  /** The first ``` of `s`, ending by `n`, is the first ``` of `s[..n]`. */
  lemma FenceInPrefix(s: string, n: nat, k: nat)
    requires n <= |s| && k + 3 <= n && Find(s, BareFence) == Some(k)
    ensures UpTo(s[..n], BareFence) == s[..k]
  {
    var piece := s[..n];
    assert InfixAt(BareFence, piece, k) by {
      assert piece[k..k + 3] == s[k..k + 3];
    }
    forall m | 0 <= m < k
      ensures !InfixAt(BareFence, piece, m)
    {
      if InfixAt(BareFence, piece, m) {
        InfixTrans(BareFence, piece, s, m, 0);
      }
    }
    FindFirst(piece, BareFence, k);
  }

  /** A prefix `s[..n]` that ends before the end of the first ``` of `s`
      (which starts at `k`) holds none. */
  lemma NoFenceInPrefix(s: string, n: nat, k: nat)
    requires n <= |s| && Find(s, BareFence) == Some(k) && n < k + 3
    ensures UpTo(s[..n], BareFence) == s[..n]
  {
    var piece := s[..n];
    forall m | 0 <= m
      ensures !InfixAt(BareFence, piece, m)
    {
      if InfixAt(BareFence, piece, m) {
        InfixTrans(BareFence, piece, s, m, 0);
      }
    }
  }

  /** Whenever a fence is present, the kept text holds no ``` and occurs in
      the stripped reply. */
  lemma ExtractFenced(reply: string)
    requires Contains(Strip(reply), BareFence)
    ensures !Contains(Extract(reply), BareFence)
    ensures exists i :: InfixAt(Extract(reply), Strip(reply), i)
  {
    if Contains(Strip(reply), HtmlFence) {
      HtmlFenceKept(Strip(reply));
    } else {
      BareFenceKept(Strip(reply));
    }
  }

  /** `ExtractFenced` for the ```html branch on its own. */
  lemma HtmlFenceKept(stripped: string)
    requires Contains(stripped, HtmlFence)
    ensures !Contains(HtmlFenced(stripped), BareFence)
    ensures exists i :: InfixAt(HtmlFenced(stripped), stripped, i)
  {
    var i := Find(stripped, HtmlFence).value + 7;
    var after := stripped[i..];
    var piece := UpTo(after, HtmlFence);
    var kept := UpTo(piece, BareFence);
    assert piece == Split(stripped, HtmlFence)[1];
    assert kept == Split(piece, BareFence)[0];
    assert HtmlFenced(stripped) == Strip(kept);
    assert InfixAt(kept, piece, 0) && InfixAt(piece, after, 0);
    InfixTrans(kept, piece, after, 0, 0);
    StrippedPiece(stripped, i, kept);
  }

  /** `ExtractFenced` for the bare ``` branch on its own. */
  lemma BareFenceKept(stripped: string)
    requires Contains(stripped, BareFence)
    ensures !Contains(BareFenced(stripped), BareFence)
    ensures exists i :: InfixAt(BareFenced(stripped), stripped, i)
  {
    var i := Find(stripped, BareFence).value + 3;
    StrippedPiece(stripped, i, UpTo(stripped[i..], BareFence));
  }

  /** A piece without ``` taken from the start of `s[i..]`, once stripped,
      still holds no ``` and occurs in `s`. */
  lemma StrippedPiece(s: string, i: nat, piece: string)
    requires i <= |s| && InfixAt(piece, s[i..], 0) && !Contains(piece, BareFence)
    ensures !Contains(Strip(piece), BareFence)
    ensures exists j :: InfixAt(Strip(piece), s, j)
  {
    var lead := |piece| - |StripLeft(piece)|;
    StripOccurs(piece);
    assert InfixAt(s[i..], s, i);
    InfixTrans(piece, s[i..], s, 0, i);
    InfixTrans(Strip(piece), piece, s, lead, i);
    NoneInInfix(Strip(piece), piece, lead, BareFence);
  }

  /** The kept text is already stripped: stripping it again changes
      nothing. */
  lemma ExtractStripped(reply: string)
    ensures Strip(Extract(reply)) == Extract(reply)
  {
    StripStripped(Extract(reply));
  }

  /** The case `FenceOverlapsHtmlFence` sets apart: after the ```html of
      "```html`````html" comes "`````html", whose first ``` starts at once;
      Python's split cuts at the ```html two characters on, so the kept text
      is "``", not the empty text before the first ```. */
  lemma OverlappingFences()
    ensures FenceOverlapsHtmlFence("`````html")
    ensures UpTo(UpTo("`````html", HtmlFence), BareFence) == "``"
    ensures UpTo("`````html", BareFence) == ""
  {
    var after := "`````html";
    assert InfixAt(HtmlFence, after, 2);
    assert after[0..7][3] != HtmlFence[3];
    assert after[1..8][3] != HtmlFence[3];
    FindFirst(after, HtmlFence, 2);
    FindFirst(after, BareFence, 0);
    assert !InfixAt(BareFence, "``", 0);
  }

  /** Four backticks later on do not count as an overlap: after the ```html
      of "```html<t/>``` x ````" the first ``` ends the kept text "<t/>". */
  lemma LaterBackticksKept()
    ensures !FenceOverlapsHtmlFence("<t/>``` x ````")
    ensures UpTo("<t/>``` x ````", BareFence) == "<t/>"
  {
    var after := "<t/>``` x ````";
    forall j | 0 <= j
      ensures !InfixAt(HtmlFence, after, j)
    {
      if j + 7 <= |after| {
        assert after[j..j + 7][3] == after[j + 3] != HtmlFence[3];
      }
    }
    assert InfixAt(BareFence, after, 4);
    forall m | 0 <= m < 4
      ensures !InfixAt(BareFence, after, m)
    {
      assert after[m..m + 3][0] == after[m] != BareFence[0];
    }
    FindFirst(after, BareFence, 4);
  }
}
