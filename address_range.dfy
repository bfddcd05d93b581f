/** Target expressions and the addresses they stand for: the `ipToString`
    formatter and the three target forms `handleAdvancedScan` recognises
    (a `/24` block, a last-octet range `a.b.c.S-E`, a literal address). */
module AddressRange {
  import opened ArduinoString

  type Octet = x: int | 0 <= x < 256

  /** An `IPAddress`: four octets, most significant first. */
  datatype Address = Address(a: Octet, b: Octet, c: Octet, d: Octet)

  /** `ipToString`: the four octets in decimal, joined by dots. */
  function IpToString(ip: Address): (r: string)
    ensures |r| >= 7
  {
    DecimalString(ip.a) + "." + DecimalString(ip.b) + "." + DecimalString(ip.c) + "." + DecimalString(ip.d)
  }

  /** The first three octets and their dots, `a.b.c.`, of an address. */
  function Prefix24(ip: Address): (r: string) {
    DecimalString(ip.a) + "." + DecimalString(ip.b) + "." + DecimalString(ip.c) + "."
  }

  /** `base + String(i)` for `i` from `lo` up to `hi`, in that order. */
  function Hosts(base: string, lo: int, hi: int): (r: seq<string>)
    ensures |r| == if hi < lo then 0 else hi - lo + 1
  {
    seq(if hi < lo then 0 else hi - lo + 1, k => base + DecimalString(lo + k))
  }

  /** `Hosts` holds `max(0, hi - lo + 1)` hosts, ascending from `lo`: the
      `k`-th is `base + String(lo + k)`. */
  lemma {:induction false} HostsShape(base: string, lo: int, hi: int)
    ensures var r := Hosts(base, lo, hi);
      |r| == (if hi < lo then 0 else hi - lo + 1) &&
      (hi < lo ==> r == []) &&
      forall k :: 0 <= k < |r| ==> r[k] == base + DecimalString(lo + k)
  {
  }

  /** One more step of the counted loop appends one host at the end. */
  lemma {:induction false} HostsSnoc(base: string, lo: int, hi: int)
    requires lo <= hi
    ensures Hosts(base, lo, hi) == Hosts(base, lo, hi - 1) + [base + DecimalString(hi)]
  {
    var r, q := Hosts(base, lo, hi), Hosts(base, lo, hi - 1);
    assert forall k :: 0 <= k < |q| ==> r[k] == q[k];
  }

  /** No address is scanned twice: the hosts of one expansion are pairwise
      different, since distinct numbers have distinct decimal renderings. */
  lemma {:induction false} HostsDistinct(base: string, lo: int, hi: int)
    ensures var r := Hosts(base, lo, hi);
      forall i, j :: 0 <= i < j < |r| ==> r[i] != r[j]
  {
    var r := Hosts(base, lo, hi);
    forall i, j | 0 <= i < j < |r| ensures r[i] != r[j] {
      HostsDiffer(base, lo + i, lo + j);
    }
  }

  /** Different host numbers give different addresses. */
  lemma {:induction false} HostsDiffer(base: string, i: int, j: int)
    requires i != j
    ensures base + DecimalString(i) != base + DecimalString(j)
  {
    var x, y := DecimalString(i), DecimalString(j);
    assert (base + x)[|base|..] == x && (base + y)[|base|..] == y;
    if x == y {
      DecimalStringInjective(i, j);
      assert false;
    }
  }

  /** The text up to and including the last '.' (empty when there is none). */
  function BaseOf(s: string): (r: string) {
    Substring(s, 0, LastIndexOf(s, '.') + 1)
  }

  /** The first and last host octet of a `/24` block. */
  const FirstHost := 1
  const LastHost := 254

  /** The `/24` branch: hosts 1 to 254 after the base. */
  function CidrHosts(s: string): (r: seq<string>) {
    Hosts(BaseOf(s), FirstHost, LastHost)
  }

  /** The text the range start is read from: between the last '.' and the
      first '-' (`substring` swaps the two when the '.' comes later). */
  function StartText(s: string): (r: string)
    requires '-' in s
  {
    Substring(s, LastIndexOf(s, '.') + 1, IndexOf(s, '-'))
  }

  /** The text the range end is read from: after the first '-'. */
  function EndText(s: string): (r: string)
    requires '-' in s
  {
    Substring(s, IndexOf(s, '-') + 1, |s|)
  }

  /** The range start, `toInt` of its text. */
  function RangeStart(s: string): (r: int)
    requires '-' in s
  {
    ToInt(StartText(s))
  }

  /** The range end, `toInt` of its text. */
  function RangeEnd(s: string): (r: int)
    requires '-' in s
  {
    ToInt(EndText(s))
  }

  /** The range branch: hosts `start` to `end` after the base. */
  function RangeHosts(s: string): (r: seq<string>)
    requires '-' in s
  {
    Hosts(BaseOf(s), RangeStart(s), RangeEnd(s))
  }

  /** The addresses a target expression expands to, in scan order. */
  function Expand(s: string): (r: seq<string>)
    ensures EndsWith(s, "/24") ==> |r| == 254
  {
    if EndsWith(s, "/24") then CidrHosts(s)
    else if IndexOf(s, '-') != -1 then RangeHosts(s)
    else [s]
  }

  /** The base is the prefix of the input through its last '.', and no
      '.' follows it. */
  lemma {:induction false} BaseIsPrefix(s: string)
    ensures var dot := LastIndexOf(s, '.');
      BaseOf(s) == s[..dot + 1] && '.' !in s[dot + 1..]
  {
    BaseIsText(s);
    LastIndexOfLast(s, '.');
  }

  /** The base is the prefix of the input through its last '.'. */
  lemma {:induction false} BaseIsText(s: string)
    ensures BaseOf(s) == s[..LastIndexOf(s, '.') + 1]
  {
    SubstringInOrder(s, 0, LastIndexOf(s, '.') + 1);
  }

  /** The text the range start is read from, with `substring`'s swap
      written out: when the last '.' follows the first '-', it is the text
      between them, beginning at the '-'. */
  lemma {:induction false} StartTextCases(s: string)
    requires '-' in s
    ensures var dot, dash := LastIndexOf(s, '.'), IndexOf(s, '-');
      StartText(s) == if dot < dash then s[dot + 1..dash] else s[dash..dot + 1]
  {
    var dot, dash := LastIndexOf(s, '.'), IndexOf(s, '-');
    RangeTextsUnfold(s);
    if dot < dash {
      SubstringInOrder(s, dot + 1, dash);
    } else {
      SubstringSwapped(s, dot + 1, dash);
    }
  }

  /** The range end is read from everything after the first '-'. */
  lemma {:induction false} EndTextIsTail(s: string)
    requires '-' in s
    ensures EndText(s) == s[IndexOf(s, '-') + 1..]
  {
    RangeTextsUnfold(s);
    SubstringInOrder(s, IndexOf(s, '-') + 1, |s|);
  }

  lemma {:induction false} RangeTextsUnfold(s: string)
    requires '-' in s
    ensures StartText(s) == Substring(s, LastIndexOf(s, '.') + 1, IndexOf(s, '-'))
    ensures EndText(s) == Substring(s, IndexOf(s, '-') + 1, |s|)
  {
  }

  /** The base the range branch computes is the input through its last
      '.', the base `Expand` uses. */
  lemma {:induction false} ParsedBase(s: string, dot: int, base: string)
    requires dot == LastIndexOf(s, '.') && base == Substring(s, 0, dot + 1)
    ensures base == s[..LastIndexOf(s, '.') + 1] && base == BaseOf(s)
  {
    SubstringInOrder(s, 0, dot + 1);
  }

  /** The start the range branch computes is `toInt` of the text between
      the last '.' and the first '-' (from the '-' when the '.' comes
      later), the start `Expand` uses. */
  lemma {:induction false} ParsedStart(s: string, dot: int, dash: int, start: int)
    requires '-' in s && dot == LastIndexOf(s, '.') && dash == IndexOf(s, '-')
    requires start == ToInt(Substring(s, dot + 1, dash))
    ensures var dot', dash' := LastIndexOf(s, '.'), IndexOf(s, '-');
      start == ToInt(if dot' < dash' then s[dot' + 1..dash'] else s[dash'..dot' + 1])
    ensures start == RangeStart(s)
  {
    RangeTextsUnfold(s);
    StartTextCases(s);
    SameText(StartText(s), Substring(s, dot + 1, dash));
  }

  /** The end the range branch computes is `toInt` of the text after the
      first '-', the end `Expand` uses. */
  lemma {:induction false} ParsedEnd(s: string, dash: int, end: int)
    requires '-' in s && dash == IndexOf(s, '-')
    requires end == ToInt(Substring(s, dash + 1, |s|))
    ensures end == ToInt(s[IndexOf(s, '-') + 1..]) && end == RangeEnd(s)
  {
    RangeTextsUnfold(s);
    EndTextIsTail(s);
    SameText(EndText(s), Substring(s, dash + 1, |s|));
  }

  /** Equal texts read as equal numbers: the step that moves a fact about
      a text to its `toInt`. */
  lemma {:induction false} SameText(x: string, y: string)
    requires x == y
    ensures ToInt(x) == ToInt(y)
  {
  }

  /** A `/24` input expands to the hosts 1 to 254 over its text through the
      last '.', whatever else it contains (a '-' too); `Cidr24Block` says
      what those hosts are. */
  lemma {:induction false} Cidr24Expansion(s: string)
    requires EndsWith(s, "/24")
    ensures Expand(s) == Hosts(s[..LastIndexOf(s, '.') + 1], FirstHost, LastHost)
  {
    BaseIsText(s);
  }

  /** A `/24` block is exactly 254 hosts, `base+"1"` to `base+"254"` in
      ascending order; the network (`.0`) and broadcast (`.255`) hosts never
      appear. */
  lemma {:induction false} Cidr24Block(base: string)
    ensures var r := Hosts(base, FirstHost, LastHost);
      |r| == 254 &&
      (forall k :: 0 <= k < 254 ==> r[k] == base + DecimalString(k + 1)) &&
      base + "0" !in r && base + "255" !in r
  {
    Cidr24Excludes(base);
  }

  /** No host of a `/24` block over `base` is `base + "0"` or `base + "255"`. */
  lemma {:induction false} Cidr24Excludes(base: string)
    ensures var r := Hosts(base, FirstHost, LastHost);
      base + "0" !in r && base + "255" !in r
  {
    var r := Hosts(base, FirstHost, LastHost);
    forall k | 0 <= k < |r|
      ensures r[k] != base + "0" && r[k] != base + "255"
    {
      NotNetworkOrBroadcast(base, k + 1);
    }
  }

  /** A host splits back into its base and an octet that `toInt` reads
      as the number it was made from. */
  lemma {:induction false} HostReadsBack(base: string, i: int)
    ensures var h := base + DecimalString(i);
      |base| <= |h| && h[..|base|] == base && ToInt(h[|base|..]) == i
  {
    var h := base + DecimalString(i);
    assert h[|base|..] == DecimalString(i);
    ToIntOfDecimal(i);
  }

  /** A host octet between 1 and 254 is neither "0" nor "255". */
  lemma {:induction false} NotNetworkOrBroadcast(base: string, i: int)
    requires 1 <= i <= 254
    ensures base + DecimalString(i) != base + "0"
    ensures base + DecimalString(i) != base + "255"
  {
    HostReadsBack(base, i);
    assert (base + "0")[|base|..] == "0";
    assert (base + "255")[|base|..] == "255";
    OctetLiterals();
  }

  lemma {:induction false} OctetLiterals()
    ensures ToInt("0") == 0 && ToInt("255") == 255
  {
    assert DecimalString(0) == "0" && DecimalString(255) == "255";
    ToIntOfDecimal(0);
    ToIntOfDecimal(255);
  }

  /** Each host of a `/24` expansion is the base followed by an octet that
      reads back, by `toInt`, as its position plus one: 1 to 254. */
  lemma {:induction false} Cidr24HostOctets(s: string, k: int)
    requires EndsWith(s, "/24") && 0 <= k < 254
    ensures var base := BaseOf(s);
      var h := Expand(s)[k];
      |base| <= |h| && h[..|base|] == base && ToInt(h[|base|..]) == k + 1
  {
    assert Expand(s)[k] == BaseOf(s) + DecimalString(k + 1);
    HostReadsBack(BaseOf(s), k + 1);
  }

  /** The `/24` test comes first: `prefix.S-E/24` is a whole subnet of 254
      hosts, although read as a range it would be the hosts `S` to `E`. */
  lemma {:induction false} CidrTakesPrecedence(prefix: string, lo: nat, hi: nat)
    requires '-' !in prefix
    ensures var s := prefix + "." + DecimalString(lo) + "-" + DecimalString(hi) + "/24";
      |Expand(s)| == 254 && RangeHosts(s) == Hosts(prefix + ".", lo, hi)
  {
    var first, rest := DecimalString(lo), DecimalString(hi) + "/24";
    var s := prefix + "." + first + "-" + rest;
    assert s == prefix + "." + DecimalString(lo) + "-" + DecimalString(hi) + "/24";
    assert EndsWith(s, "/24");
    Cidr24Expansion(s);
    DecimalStringChars(lo);
    assert '.' !in rest by {
      DecimalStringChars(hi);
      forall k | 0 <= k < |rest| ensures rest[k] != '.' {
        if k < |DecimalString(hi)| { assert rest[k] == DecimalString(hi)[k]; }
      }
    }
    RangeBase(prefix, first, rest);
    RangeBounds(prefix, first, rest);
    ToIntOfDecimal(lo);
    ToIntOfDecimalThen(hi, "/24");
  }

  /** A range input (no `/24` suffix, some '-') expands to the hosts
      `base + String(i)` for `i` from the start bound up to the end bound
      (see `Hosts` and `HostsShape`): `end - start + 1` of them, none when
      `end < start`. The base is the input through its last '.';
      `RangeStartIs` and `RangeEndIs` say which texts the bounds are read
      from. */
  lemma {:induction false} RangeExpansion(s: string)
    requires !EndsWith(s, "/24") && '-' in s
    ensures Expand(s) == Hosts(s[..LastIndexOf(s, '.') + 1], RangeStart(s), RangeEnd(s))
  {
    ExpandRange(s);
    BaseIsText(s);
  }

  /** The range start is `toInt` of the text `t` between the last '.' and
      the first '-' (from the '-' when the '.' comes later). */
  lemma {:induction false} RangeStartIs(s: string, t: string)
    requires '-' in s
    requires var dot, dash := LastIndexOf(s, '.'), IndexOf(s, '-');
      t == if dot < dash then s[dot + 1..dash] else s[dash..dot + 1]
    ensures RangeStart(s) == ToInt(t)
  {
    StartTextCases(s);
    SameText(StartText(s), t);
  }

  /** The range end is `toInt` of the text `t` after the first '-'. */
  lemma {:induction false} RangeEndIs(s: string, t: string)
    requires '-' in s && t == s[IndexOf(s, '-') + 1..]
    ensures RangeEnd(s) == ToInt(t)
  {
    EndTextIsTail(s);
    SameText(EndText(s), t);
  }

  /** Without a `/24` suffix, an input with a '-' takes the range branch. */
  lemma {:induction false} ExpandRange(s: string)
    requires !EndsWith(s, "/24") && '-' in s
    ensures Expand(s) == Hosts(BaseOf(s), RangeStart(s), RangeEnd(s))
  {
  }

  /** In `prefix.S-E`, where `S` holds neither '.' nor '-' and `E` holds no
      '.', the last '.' is the one before `S` and the first '-' the one
      after it. */
  lemma {:induction false} RangeTokens(prefix: string, first: string, rest: string)
    requires '-' !in prefix && '.' !in first && '-' !in first && '.' !in rest
    ensures var s := prefix + "." + first + "-" + rest;
      LastIndexOf(s, '.') == |prefix| && IndexOf(s, '-') == |prefix| + 1 + |first|
  {
    var s := prefix + "." + first + "-" + rest;
    var tail := first + "-" + rest;
    assert s == prefix + "." + tail;
    assert '.' !in tail by {
      forall k | 0 <= k < |tail| ensures tail[k] != '.' {
        if k < |first| { assert tail[k] == first[k]; }
        else if k > |first| { assert tail[k] == rest[k - |first| - 1]; }
      }
    }
    assert s[|prefix|] == '.' && s[|prefix| + 1..] == tail;
    LastIndexOfAt(s, '.', |prefix|);
    var head := prefix + "." + first;
    assert s == head + "-" + rest;
    assert '-' !in head by {
      forall k | 0 <= k < |head| ensures head[k] != '-' {
        if k < |prefix| { assert head[k] == prefix[k]; }
        else if k > |prefix| { assert head[k] == first[k - |prefix| - 1]; }
      }
    }
    assert s[|head|] == '-' && s[..|head|] == head;
    IndexOfAt(s, '-', |head|);
  }

  /** The range texts once the positions of the last '.' and the first '-'
      are known, with the '.' first. */
  lemma {:induction false} RangeTextsAt(s: string, dot: int, dash: int)
    requires '-' in s && LastIndexOf(s, '.') == dot && IndexOf(s, '-') == dash && dot < dash
    ensures StartText(s) == s[dot + 1..dash] && EndText(s) == s[dash + 1..]
  {
    RangeTextsUnfold(s);
    SubstringInOrder(s, dot + 1, dash);
    SubstringInOrder(s, dash + 1, |s|);
  }

  lemma {:induction false} Middle(a: string, b: string, c: string)
    ensures (a + b + c)[|a|..|a| + |b|] == b && (a + b + c)[|a| + |b|..] == c
  {
  }

  /** In `prefix.S-E` (as in `RangeTokens`) the range texts are `S` and
      `E`. */
  lemma {:induction false} RangeTexts(prefix: string, first: string, rest: string)
    requires '-' !in prefix && '.' !in first && '-' !in first && '.' !in rest
    ensures var s := prefix + "." + first + "-" + rest;
      '-' in s && StartText(s) == first && EndText(s) == rest
  {
    var s := prefix + "." + first + "-" + rest;
    RangeTokens(prefix, first, rest);
    var dot, dash := |prefix|, |prefix| + 1 + |first|;
    assert s[dot + 1..dash] == first by {
      Middle(prefix + ".", first, "-" + rest);
    }
    assert s[dash + 1..] == rest by {
      Middle(prefix + "." + first + "-", rest, "");
    }
    RangeTextsAt(s, dot, dash);
  }

  /** In `prefix.S-E` (as in `RangeTokens`) the bounds are `toInt(S)` and
      `toInt(E)`. */
  lemma {:induction false} RangeBounds(prefix: string, first: string, rest: string)
    requires '-' !in prefix && '.' !in first && '-' !in first && '.' !in rest
    ensures var s := prefix + "." + first + "-" + rest;
      '-' in s && RangeStart(s) == ToInt(first) && RangeEnd(s) == ToInt(rest)
  {
    var s := prefix + "." + first + "-" + rest;
    RangeTexts(prefix, first, rest);
    SameText(StartText(s), first);
    SameText(EndText(s), rest);
  }

  /** In `prefix.S-E` with decimal bounds the base is `prefix.` and the
      bounds read back as `S` and `E`. */
  lemma {:induction false} DottedRangeBounds(prefix: string, lo: nat, hi: nat)
    requires '-' !in prefix
    ensures var s := prefix + "." + DecimalString(lo) + "-" + DecimalString(hi);
      BaseOf(s) == prefix + "." && RangeStart(s) == lo && RangeEnd(s) == hi
  {
    DecimalStringChars(lo);
    DecimalStringChars(hi);
    RangeBase(prefix, DecimalString(lo), DecimalString(hi));
    RangeBounds(prefix, DecimalString(lo), DecimalString(hi));
    ToIntOfDecimal(lo);
    ToIntOfDecimal(hi);
  }

  /** A well-formed range `prefix.S-E` expands to the hosts `prefix.S` up
      to `prefix.E`: exactly `max(0, E - S + 1)` of them. */
  lemma {:induction false} DottedRangeExpansion(prefix: string, lo: nat, hi: nat)
    requires '-' !in prefix
    ensures Expand(prefix + "." + DecimalString(lo) + "-" + DecimalString(hi)) == Hosts(prefix + ".", lo, hi)
  {
    RangeNotCidr(prefix + "." + DecimalString(lo), hi);
    DottedRangeBounds(prefix, lo, hi);
  }

  /** A range bound with no leading digit reads as 0: `prefix.x-E`
      expands to the hosts `prefix.0` up to `prefix.E`. */
  lemma {:induction false} RangeWithoutDigitsStartsAtZero(prefix: string, first: string, hi: nat)
    requires '-' !in prefix && '.' !in first && '-' !in first
    requires Unsigned(first) == [] || !IsDigit(Unsigned(first)[0])
    ensures Expand(prefix + "." + first + "-" + DecimalString(hi)) == Hosts(prefix + ".", 0, hi)
  {
    var s := prefix + "." + first + "-" + DecimalString(hi);
    RangeNotCidr(prefix + "." + first, hi);
    DecimalStringChars(hi);
    RangeBase(prefix, first, DecimalString(hi));
    RangeBounds(prefix, first, DecimalString(hi));
    ToIntWithoutDigits(first);
    ToIntOfDecimal(hi);
  }

  /** In `prefix.S-E` (as in `RangeTokens`) the base is `prefix.`. */
  lemma {:induction false} RangeBase(prefix: string, first: string, rest: string)
    requires '-' !in prefix && '.' !in first && '-' !in first && '.' !in rest
    ensures BaseOf(prefix + "." + first + "-" + rest) == prefix + "."
  {
    var s := prefix + "." + first + "-" + rest;
    RangeTokens(prefix, first, rest);
    BaseIsText(s);
    assert s[..|prefix| + 1] == prefix + ".";
  }

  /** `head-E` with a decimal `E` does not end in `/24`. */
  lemma {:induction false} RangeNotCidr(head: string, hi: int)
    ensures !EndsWith(head + "-" + DecimalString(hi), "/24")
  {
    var last := "-" + DecimalString(hi);
    var s := head + last;
    assert s == head + "-" + DecimalString(hi);
    DecimalStringChars(hi);
    assert '/' !in last by {
      forall k | 0 <= k < |last| ensures last[k] != '/' {
        if k > 0 { assert last[k] == DecimalString(hi)[k - 1]; }
      }
    }
    if |last| >= 3 {
      assert s[|s| - 3] == last[|last| - 3];
    } else {
      assert s[|s| - 2] == '-';
    }
  }

  /** An input with neither a `/24` suffix nor a '-' is scanned as it is. */
  lemma {:induction false} LiteralExpansion(s: string)
    requires !EndsWith(s, "/24") && '-' !in s
    ensures Expand(s) == [s]
  {
  }

  /** The `/24` block of a formatted address is the 254 addresses that share
      its first three octets, with last octet 1 to 254: the expansion never
      leaves the block the input names. */
  lemma {:induction false} Cidr24OfAddress(ip: Address)
    ensures var r := Expand(IpToString(ip) + "/24");
      |r| == 254 &&
      forall k :: 0 <= k < 254 ==> r[k] == IpToString(Address(ip.a, ip.b, ip.c, k + 1))
  {
    var s, pre := IpToString(ip) + "/24", Prefix24(ip);
    AddressBase(ip);
    assert Expand(s) == Hosts(pre, FirstHost, LastHost);
    Cidr24Block(pre);
    forall k | 0 <= k < 254
      ensures Expand(s)[k] == IpToString(Address(ip.a, ip.b, ip.c, k + 1))
    {
      assert IpToString(Address(ip.a, ip.b, ip.c, k + 1)) == pre + DecimalString(k + 1);
    }
  }

  /** Appending `/24` to a text without a '.' adds none. */
  lemma {:induction false} DotFreeTail(last: string)
    requires '.' !in last
    ensures '.' !in last + "/24"
  {
    var tail := last + "/24";
    forall k | 0 <= k < |tail| ensures tail[k] != '.' {
      if k < |last| { assert tail[k] == last[k]; }
    }
  }

  /** A formatted address followed by `/24` takes the `/24` branch, with
      the first three octets and their dots as the base. */
  lemma {:induction false} AddressBase(ip: Address)
    ensures var s := IpToString(ip) + "/24";
      EndsWith(s, "/24") && BaseOf(s) == Prefix24(ip)
  {
    var pre, last := Prefix24(ip), DecimalString(ip.d);
    DecimalStringChars(ip.d);
    var s := IpToString(ip) + "/24";
    var tail := last + "/24";
    assert IpToString(ip) == pre + last;
    assert s == pre + tail;
    assert EndsWith(s, "/24");
    DotFreeTail(last);
    assert |pre| > 0 && pre[|pre| - 1] == '.';
    assert s[|pre| - 1] == '.' && s[|pre|..] == tail;
    LastIndexOfAt(s, '.', |pre| - 1);
    BaseIsText(s);
  }
}
