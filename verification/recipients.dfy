/**
  The recipient parser of the `/send` handler (server.js:69-74): split the
  `to` field on `,` or newline, trim every piece, keep the pieces that pass
  the shape check, then drop repeats keeping first occurrences.
*/
module Recipients {
  import opened AddressShape
  import opened Distinct

  /** The separators of `split(/,|\n/)`. */
  predicate IsSeparator(c: char) {
    c == ',' || c == '\n'
  }

  ghost predicate NoSeparator(s: string) {
    forall i :: 0 <= i < |s| ==> !IsSeparator(s[i])
  }

  /** The separator characters of `s`, in order. */
  function Separators(s: string): (seps: string)
    ensures forall i :: 0 <= i < |seps| ==> IsSeparator(seps[i])
  {
    if |s| == 0 then []
    else (if IsSeparator(s[0]) then [s[0]] else []) + Separators(s[1..])
  }

  /** `pieces[0] + seps[0] + pieces[1] + ... + pieces[n]`: the inverse of
      `Split` once the separators are known. */
  function Interleave(pieces: seq<string>, seps: string): string
    requires |pieces| == |seps| + 1
    decreases |seps|
  {
    if |seps| == 0 then pieces[0]
    else pieces[0] + [seps[0]] + Interleave(pieces[1..], seps[1..])
  }

  /** `s.split(/,|\n/)`: the maximal separator-free runs of `s`, one more
      than there are separators (so the empty string gives one empty piece). */
  function Split(s: string): (pieces: seq<string>)
    ensures |pieces| == |Separators(s)| + 1
    ensures forall k :: 0 <= k < |pieces| ==> NoSeparator(pieces[k])
  {
    if |s| == 0 then [""]
    else
      var rest := Split(s[1..]);
      if IsSeparator(s[0]) then [""] + rest
      else
        var first := [s[0]] + rest[0];
        assert NoSeparator(first) by {
          forall i | 0 < i < |first| ensures !IsSeparator(first[i]) {
            assert first[i] == rest[0][i - 1];
          }
        }
        [first] + rest[1..]
  }

  lemma InterleaveConsFirst(c: char, pieces: seq<string>, seps: string)
    requires |pieces| == |seps| + 1
    ensures Interleave([[c] + pieces[0]] + pieces[1..], seps) == [c] + Interleave(pieces, seps)
  {
    var ps := [[c] + pieces[0]] + pieces[1..];
    assert ps[1..] == pieces[1..];
  }

  /** Splitting loses nothing: putting the separators back gives `s`. */
  lemma {:induction false} SplitInterleave(s: string)
    ensures Interleave(Split(s), Separators(s)) == s
    decreases |s|
  {
    if |s| > 0 {
      var rest := Split(s[1..]);
      SplitInterleave(s[1..]);
      if IsSeparator(s[0]) {
        assert Split(s)[1..] == rest;
        assert Separators(s) == [s[0]] + Separators(s[1..]);
        assert s == [s[0]] + s[1..];
      } else {
        assert Separators(s) == Separators(s[1..]);
        InterleaveConsFirst(s[0], rest, Separators(s[1..]));
        assert s == [s[0]] + s[1..];
      }
    }
  }

  /** A separator-free prefix joins the first piece of what follows it. */
  lemma {:induction false} SplitAfterPlainPrefix(p: string, rest: string)
    requires NoSeparator(p)
    ensures Split(p + rest) == [p + Split(rest)[0]] + Split(rest)[1..]
    decreases |p|
  {
    if |p| > 0 {
      var tail := p[1..];
      assert NoSeparator(tail) by {
        forall i | 0 <= i < |tail| ensures !IsSeparator(tail[i]) {
          assert tail[i] == p[i + 1];
        }
      }
      SplitAfterPlainPrefix(tail, rest);
      assert (p + rest)[0] == p[0];
      assert (p + rest)[1..] == tail + rest;
      assert [p[0]] + (tail + Split(rest)[0]) == p + Split(rest)[0];
    } else {
      assert p + rest == rest;
      assert p + Split(rest)[0] == Split(rest)[0];
      assert Split(rest) == [Split(rest)[0]] + Split(rest)[1..];
    }
  }

  /** Splitting inverts interleaving: separator-free pieces joined by
      separators split back into exactly those pieces. */
  lemma {:induction false} InterleaveSplit(pieces: seq<string>, seps: string)
    requires |pieces| == |seps| + 1
    requires forall k :: 0 <= k < |pieces| ==> NoSeparator(pieces[k])
    requires forall i :: 0 <= i < |seps| ==> IsSeparator(seps[i])
    ensures Split(Interleave(pieces, seps)) == pieces
    decreases |seps|
  {
    if |seps| == 0 {
      SplitAfterPlainPrefix(pieces[0], "");
      assert pieces[0] + "" == pieces[0];
    } else {
      var after := [seps[0]] + Interleave(pieces[1..], seps[1..]);
      InterleaveSplit(pieces[1..], seps[1..]);
      assert Split(after) == [""] + pieces[1..] by {
        assert after[0] == seps[0];
        assert after[1..] == Interleave(pieces[1..], seps[1..]);
      }
      assert Interleave(pieces, seps) == pieces[0] + after;
      SplitAfterPlainPrefix(pieces[0], after);
      assert pieces[0] + "" == pieces[0];
      assert pieces == [pieces[0]] + pieces[1..];
    }
  }

  /** The number of whitespace characters `s` starts with. */
  function LeadingSpaces(s: string): (n: nat)
    ensures n <= |s|
    ensures forall i :: 0 <= i < n ==> IsSpace(s[i])
    ensures n < |s| ==> !IsSpace(s[n])
  {
    if |s| > 0 && IsSpace(s[0]) then 1 + LeadingSpaces(s[1..]) else 0
  }

  /** The index where the whitespace that `s` ends with begins. */
  function TrailingStart(s: string): (n: nat)
    ensures n <= |s|
    ensures forall i :: n <= i < |s| ==> IsSpace(s[i])
    ensures 0 < n ==> !IsSpace(s[n - 1])
  {
    if |s| > 0 && IsSpace(s[|s| - 1]) then TrailingStart(s[..|s| - 1]) else |s|
  }

  /** `s.trimStart()`: a suffix of `s`; what it drops is all whitespace. */
  function TrimStart(s: string): (r: string)
    ensures |r| <= |s| && r == s[|s| - |r|..]
    ensures forall i :: 0 <= i < |s| - |r| ==> IsSpace(s[i])
    ensures |r| > 0 ==> !IsSpace(r[0])
  {
    s[LeadingSpaces(s)..]
  }

  /** `s.trimEnd()`: a prefix of `s`; what it drops is all whitespace. */
  function TrimEnd(s: string): (r: string)
    ensures |r| <= |s| && r == s[..|r|]
    ensures forall i :: |r| <= i < |s| ==> IsSpace(s[i])
    ensures |r| > 0 ==> !IsSpace(r[|r| - 1])
  {
    s[..TrailingStart(s)]
  }

  /** `s.trim()`: the infix `s[i..i + |r|]` left once the whitespace at both
      ends is removed. */
  function Trim(s: string): (r: string)
    ensures |r| > 0 ==> !IsSpace(r[0]) && !IsSpace(r[|r| - 1])
    ensures exists i :: TrimmedAt(s, r, i)
  {
    TrimPlacement(s);
    TrimEnd(TrimStart(s))
  }

  lemma TrimPlacement(s: string)
    ensures TrimmedAt(s, TrimEnd(TrimStart(s)), |s| - |TrimStart(s)|)
  {
    var t := TrimStart(s);
    var r := TrimEnd(t);
    PrefixOfSuffix(s, t, r, |s| - |t|);
  }

  /** A prefix `r` of the suffix `t` of `s` starting at `i`, where `t`
      beyond `r` is whitespace, is the infix of `s` at `i`, and `s` beyond
      it is whitespace. */
  lemma PrefixOfSuffix(s: string, t: string, r: string, i: nat)
    requires i <= |s| && t == s[i..]
    requires |r| <= |t| && r == t[..|r|]
    requires forall j :: |r| <= j < |t| ==> IsSpace(t[j])
    ensures r == s[i..i + |r|]
    ensures forall j :: i + |r| <= j < |s| ==> IsSpace(s[j])
  {
    forall j | i + |r| <= j < |s| ensures IsSpace(s[j]) {
      assert s[j] == t[j - i];
    }
  }

  /** `r` sits at offset `i` in `s` with only whitespace around it. */
  ghost predicate TrimmedAt(s: string, r: string, i: int) {
    && 0 <= i && i + |r| <= |s|
    && r == s[i..i + |r|]
    && (forall j :: 0 <= j < i ==> IsSpace(s[j]))
    && (forall j :: i + |r| <= j < |s| ==> IsSpace(s[j]))
  }

  /** Trimming a string with no whitespace at either end leaves it alone. */
  lemma TrimUnpadded(s: string)
    requires |s| > 0 ==> !IsSpace(s[0]) && !IsSpace(s[|s| - 1])
    ensures Trim(s) == s
  {
  }

  /** Trimming is idempotent. */
  lemma TrimIdempotent(s: string)
    ensures Trim(Trim(s)) == Trim(s)
  {
    TrimUnpadded(Trim(s));
  }

  /** The trimmed pieces of `to`, before any filtering. */
  function Segments(to: string): (segs: seq<string>)
    ensures |segs| == |Split(to)|
  {
    var pieces := Split(to);
    seq(|pieces|, k requires 0 <= k < |pieces| => Trim(pieces[k]))
  }

  /** `filter(r => emailRegex.test(r))`: the accepted entries of `xs`, in
      their order. */
  function KeepValid(xs: seq<string>): (r: seq<string>)
    ensures |r| <= |xs|
    ensures forall k :: 0 <= k < |r| ==> IsEmailShape(r[k]) && r[k] in xs
    ensures forall x :: x in xs && IsEmailShape(x) ==> x in r
  {
    if |xs| == 0 then []
    else
      var rest := KeepValid(xs[1..]);
      if IsEmailShape(xs[0]) then [xs[0]] + rest else rest
  }

  /** A single entry is kept exactly when it passes the shape check. */
  lemma KeepValidSingle(x: string)
    ensures KeepValid([x]) == if IsEmailShape(x) then [x] else []
  {
    assert [x][1..] == [];
  }

  lemma KeepValidCons(x: string, rest: seq<string>)
    ensures KeepValid([x] + rest) == KeepValid([x]) + KeepValid(rest)
  {
    assert ([x] + rest)[1..] == rest;
    KeepValidSingle(x);
  }

  lemma Associative<T>(a: seq<T>, b: seq<T>, c: seq<T>)
    ensures a + (b + c) == (a + b) + c
  {
  }

  /** Filtering distributes over concatenation, so the kept entries stay in
      input order with their repeats: together with `KeepValidSingle` this
      pins `KeepValid` down as the order-preserving filter. */
  lemma {:induction false} KeepValidAppend(xs: seq<string>, ys: seq<string>)
    ensures KeepValid(xs + ys) == KeepValid(xs) + KeepValid(ys)
    decreases |xs|
  {
    if |xs| == 0 {
      assert xs + ys == ys;
    } else {
      var x, rest := xs[0], xs[1..];
      assert xs == [x] + rest && xs + ys == [x] + (rest + ys);
      KeepValidCons(x, rest + ys);
      KeepValidAppend(rest, ys);
      KeepValidCons(x, rest);
      Associative(KeepValid([x]), KeepValid(rest), KeepValid(ys));
    }
  }

  /** The recipient list of the handler. */
  function Parse(to: string): seq<string> {
    Dedup(KeepValid(Segments(to)))
  }

  /** A segment is a trimmed split piece, so it carries no separator. */
  lemma SegmentHasNoSeparator(to: string, k: int)
    requires 0 <= k < |Segments(to)|
    ensures NoSeparator(Segments(to)[k])
  {
    var piece := Split(to)[k];
    var i :| TrimmedAt(piece, Trim(piece), i);
    forall j | 0 <= j < |Trim(piece)| ensures !IsSeparator(Trim(piece)[j]) {
      assert Trim(piece)[j] == piece[i + j];
    }
  }

  /** One recipient: it passes the shape check, carries no separator, and
      is the trimmed form of some piece of `to`. */
  lemma RecipientOrigin(to: string, r: string)
    requires r in Parse(to)
    ensures IsEmailShape(r) && NoSeparator(r)
    ensures exists k :: 0 <= k < |Split(to)| && Trim(Split(to)[k]) == r
  {
    var segs := Segments(to);
    assert r in KeepValid(segs);
    var k :| 0 <= k < |segs| && segs[k] == r;
    SegmentHasNoSeparator(to, k);
    assert Trim(Split(to)[k]) == r;
  }

  /** Every recipient passes the shape check, is distinct from the others,
      carries no separator, and is the trimmed form of one of the pieces of
      `to`. */
  lemma ParseSound(to: string)
    ensures NoDuplicates(Parse(to))
    ensures forall r :: r in Parse(to) ==>
      IsEmailShape(r) && NoSeparator(r) && exists k :: 0 <= k < |Split(to)| && Trim(Split(to)[k]) == r
  {
    forall r | r in Parse(to)
      ensures IsEmailShape(r) && NoSeparator(r)
      ensures exists k :: 0 <= k < |Split(to)| && Trim(Split(to)[k]) == r
    {
      RecipientOrigin(to, r);
    }
  }

  /** Every trimmed piece of `to` that passes the shape check is a
      recipient. */
  lemma ParseComplete(to: string)
    ensures forall k :: 0 <= k < |Split(to)| && IsEmailShape(Trim(Split(to)[k])) ==>
      Trim(Split(to)[k]) in Parse(to)
  {
    forall k | 0 <= k < |Split(to)| && IsEmailShape(Trim(Split(to)[k]))
      ensures Trim(Split(to)[k]) in Parse(to)
    {
      assert Segments(to)[k] == Trim(Split(to)[k]);
    }
  }

  /** The recipients, in order, are exactly the first occurrences of the
      accepted segments. */
  lemma ParseOrder(to: string)
    ensures Parse(to) == FirstOccurrences(KeepValid(Segments(to)))
  {
    DedupIsFirstOccurrences(KeepValid(Segments(to)));
  }

  /** Comma-joining, `rs.join(",")`. */
  function JoinWithCommas(rs: seq<string>): (s: string)
    ensures |rs| > 0 ==> s == Interleave(rs, Commas(|rs| - 1))
  {
    if |rs| == 0 then ""
    else if |rs| == 1 then rs[0]
    else
      var s := rs[0] + [','] + JoinWithCommas(rs[1..]);
      assert Commas(|rs| - 1)[1..] == Commas(|rs| - 2);
      s
  }

  function Commas(n: nat): (cs: string)
    ensures |cs| == n
    ensures forall i :: 0 <= i < n ==> cs[i] == ','
  {
    if n == 0 then [] else [','] + Commas(n - 1)
  }

  lemma KeepValidOfValid(xs: seq<string>)
    requires forall k :: 0 <= k < |xs| ==> IsEmailShape(xs[k])
    ensures KeepValid(xs) == xs
  {
    if |xs| > 0 {
      KeepValidOfValid(xs[1..]);
      KeepValidCons(xs[0], xs[1..]);
      assert xs == [xs[0]] + xs[1..];
    }
  }

  /** Splitting and trimming the comma-joined form of a list of accepted,
      separator-free addresses gives that list back. */
  lemma SegmentsOfJoined(rs: seq<string>)
    requires |rs| > 0
    requires forall k :: 0 <= k < |rs| ==> IsEmailShape(rs[k]) && NoSeparator(rs[k])
    ensures Segments(JoinWithCommas(rs)) == rs
  {
    var joined := JoinWithCommas(rs);
    InterleaveSplit(rs, Commas(|rs| - 1));
    assert Split(joined) == rs;
    forall k | 0 <= k < |rs| ensures Segments(joined)[k] == rs[k] {
      TrimUnpadded(rs[k]);
    }
  }

  /** Re-validating an accepted recipient list, written back as one
      comma-separated field, accepts the same list in the same order. */
  lemma ParseIdempotent(to: string)
    ensures Parse(JoinWithCommas(Parse(to))) == Parse(to)
  {
    var rs := Parse(to);
    ParseSound(to);
    var joined := JoinWithCommas(rs);
    if |rs| == 0 {
      assert Segments(joined) == [""];
      assert !IsEmailShape("");
      assert KeepValid(Segments(joined)) == [];
    } else {
      forall k | 0 <= k < |rs| ensures IsEmailShape(rs[k]) && NoSeparator(rs[k]) {
        assert rs[k] in rs;
      }
      SegmentsOfJoined(rs);
      KeepValidOfValid(rs);
      DedupOfDistinct(rs);
    }
  }

  lemma ExampleSplit()
    ensures Split("b@x.com, b@x.com, bad-addr") == ["b@x.com", " b@x.com", " bad-addr"]
  {
    var pieces := ["b@x.com", " b@x.com", " bad-addr"];
    assert "b@x.com, b@x.com, bad-addr" == Interleave(pieces, ",,");
    InterleaveSplit(pieces, ",,");
  }

  /** One leading blank before an unpadded string is all `Trim` removes. */
  lemma TrimOneLeadingSpace(s: string)
    requires |s| >= 2 && IsSpace(s[0]) && !IsSpace(s[1]) && !IsSpace(s[|s| - 1])
    ensures Trim(s) == s[1..]
  {
    assert LeadingSpaces(s[1..]) == 0;
    assert TrimStart(s) == s[1..];
    TrimUnpadded(s[1..]);
  }

  lemma ExampleTrimUnpadded(a: string)
    requires a == "b@x.com"
    ensures Trim(a) == a
  {
    assert !IsSpace(a[0]) && !IsSpace(a[|a| - 1]);
    TrimUnpadded(a);
  }

  lemma ExampleTrimPadded(b: string, a: string)
    requires b == " " + a && |a| >= 1 && !IsSpace(a[0]) && !IsSpace(a[|a| - 1])
    ensures Trim(b) == a
  {
    assert b[1..] == a;
    TrimOneLeadingSpace(b);
  }

  lemma ExampleShapes()
    ensures IsEmailShape("b@x.com")
    ensures !IsEmailShape("bad-addr")
  {
    var addr := "b@x.com";
    assert IsSplit(addr, 1, 3) by {
      assert addr[..1] == "b" && addr[2..3] == "x" && addr[4..] == "com";
    }
    PatternImpliesShape(addr);
    var bad := "bad-addr";
    assert forall i | 0 <= i < |bad| :: bad[i] != '@';
  }

  lemma SegmentsOfThree(to: string, a: string, b: string, c: string)
    requires Split(to) == [a, b, c]
    ensures Segments(to) == [Trim(a), Trim(b), Trim(c)]
  {
    var segs, want := Segments(to), [Trim(a), Trim(b), Trim(c)];
    forall k | 0 <= k < 3 ensures segs[k] == want[k] {
      SegmentAt(to, k);
    }
  }

  lemma SegmentAt(to: string, k: nat)
    requires k < |Split(to)|
    ensures Segments(to)[k] == Trim(Split(to)[k])
  {
  }

  lemma ExampleFilter(segs: seq<string>)
    requires segs == ["b@x.com", "b@x.com", "bad-addr"]
    ensures Dedup(KeepValid(segs)) == ["b@x.com"]
  {
    var addr := "b@x.com";
    ExampleShapes();
    assert KeepValid(segs[2..]) == [];
    assert KeepValid(segs[1..]) == [addr];
    assert KeepValid(segs) == [addr, addr];
    assert [addr, addr][1..] == [addr];
    var none: set<string> := {};
    assert none + {addr} == {addr};
    assert DedupFrom([addr], {addr}) == [];
    assert DedupFrom([addr, addr], none) == [addr] + DedupFrom([addr], {addr});
  }

  lemma ExampleSegments(to: string, a: string, b: string, c: string)
    requires Split(to) == [a, b, c]
    requires a == "b@x.com" && b == " b@x.com" && c == " bad-addr"
    ensures Segments(to) == ["b@x.com", "b@x.com", "bad-addr"]
  {
    SegmentsOfThree(to, a, b, c);
    ExampleTrimUnpadded(a);
    ExampleTrimPadded(b, a);
    ExampleTrimPadded(c, "bad-addr");
  }

  /** A repeated address is kept once and a malformed entry is dropped. */
  lemma ParseExample(to: string)
    requires to == "b@x.com, b@x.com, bad-addr"
    ensures Parse(to) == ["b@x.com"]
  {
    ExampleSplit();
    ExampleSegments(to, "b@x.com", " b@x.com", " bad-addr");
    ExampleFilter(Segments(to));
  }
}
