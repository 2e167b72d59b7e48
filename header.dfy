/** The first CSV row: a corner cell followed by one `<group name>=<group size>`
    token per group. Validation rejects tokens without `=`, then tokens whose
    size part is not a digit string, and otherwise yields the group names and
    sizes in header order. */
module GroupHeader {
  import opened Text
  import opened Failures

  datatype Header = Header(corner: string, names: seq<string>, sizes: seq<nat>)

  /** The elements of `xs` that satisfy `keep`, in their original order. */
  function Filter(xs: seq<string>, keep: string -> bool): (r: seq<string>)
    ensures |r| <= |xs|
    ensures forall x :: x in r <==> x in xs && keep(x)
    ensures r == [] <==> forall k :: 0 <= k < |xs| ==> !keep(xs[k])
  {
    if |xs| == 0 then []
    else
      var rest := Filter(xs[1..], keep);
      assert forall x :: x in xs <==> x == xs[0] || x in xs[1..];
      if keep(xs[0]) then [xs[0]] + rest else rest
  }

  /** Filtering works piece by piece: the kept elements of `xs + ys` are
      those of `xs` followed by those of `ys`. With `Filter([x], keep)` being
      `[x]` or `[]`, this fixes the order and the repetitions of the result. */
  lemma {:induction false} FilterAppend(xs: seq<string>, ys: seq<string>, keep: string -> bool)
    ensures Filter(xs + ys, keep) == Filter(xs, keep) + Filter(ys, keep)
  {
    if |xs| == 0 {
      assert xs + ys == ys;
    } else {
      assert (xs + ys)[0] == xs[0];
      assert (xs + ys)[1..] == xs[1..] + ys;
      FilterAppend(xs[1..], ys, keep);
    }
  }

  /** The group name: the part of the token before its first `=`. */
  function NameText(token: string): string
  {
    Split(token, '=')[0]
  }

  /** The group size text: the part between the first and the second `=`
      (empty when the token has no `=`). */
  function SizeText(token: string): string
  {
    var parts := Split(token, '=');
    if |parts| >= 2 then parts[1] else ""
  }

  /** A token that `"=" not in g` rejects. */
  predicate LacksSeparator(token: string)
  {
    '=' !in token
  }

  /** A token whose size part `isdigit` rejects. */
  predicate HasBadSize(token: string)
  {
    !IsDigits(SizeText(token))
  }

  /** Transposing the split tokens (`zip(*...)`) yields as many tuples as the
      shortest token has parts; unpacking them into names and sizes needs
      exactly two, so at least one token must have exactly one `=`. */
  predicate Unpackable(tokens: seq<string>)
  {
    exists k :: 0 <= k < |tokens| && |Split(tokens[k], '=')| == 2
  }

  function ParseHeader(row: seq<string>): (r: Result<Header>)
    ensures r.Err? ==> r.error.EmptyHeader? || r.error.MissingSize? || r.error.UnpackMismatch? || r.error.WrongSizeFormat?
    ensures r == Err(EmptyHeader) <==> |row| == 0
    ensures r.Ok? ==>
      r.value.corner == row[0] && |r.value.names| == |r.value.sizes| == |row| - 1 > 0 &&
      forall k :: 0 <= k < |r.value.sizes| ==>
        r.value.names[k] == NameText(row[k + 1]) && '=' !in r.value.names[k] &&
        IsDigits(SizeText(row[k + 1])) &&
        r.value.sizes[k] == ParseNat(SizeText(row[k + 1]))
  {
    if |row| == 0 then Err(EmptyHeader)
    else
      var tokens := row[1..];
      var missing := Filter(tokens, LacksSeparator);
      if missing != [] then Err(MissingSize(missing))
      else if !Unpackable(tokens) then Err(UnpackMismatch)
      else
        var wrong := Filter(tokens, HasBadSize);
        if wrong != [] then Err(WrongSizeFormat(wrong))
        else
          var names := seq(|tokens|, k requires 0 <= k < |tokens| => NameText(tokens[k]));
          var sizes := seq(|tokens|, k requires 0 <= k < |tokens| => ParseNat(SizeText(tokens[k])));
          Ok(Header(row[0], names, sizes))
  }

  /** A token without `=` makes the run fail, naming exactly the tokens that
      lack it; when every token has one, this check passes. */
  lemma MissingSeparatorRejected(row: seq<string>)
    requires |row| > 0
    ensures var r := ParseHeader(row);
      (r.Err? && r.error.MissingSize?) <==> exists k :: 1 <= k < |row| && '=' !in row[k]
    ensures var r := ParseHeader(row);
      r.Err? && r.error.MissingSize? ==>
        r.error.tokens != [] && forall t :: t in r.error.tokens <==> t in row[1..] && '=' !in t
  {
    var tokens := row[1..];
    var missing := Filter(tokens, LacksSeparator);
    if exists k :: 1 <= k < |row| && '=' !in row[k] {
      var k :| 1 <= k < |row| && '=' !in row[k];
      assert LacksSeparator(tokens[k - 1]);
    }
  }

  /** Once every token has `=` and the parts can be unpacked, a size part
      that is not a non-empty digit string (such as the empty one in `A=`)
      makes the run fail, naming exactly those tokens. */
  lemma WrongSizeRejected(row: seq<string>)
    requires |row| > 0 && forall k :: 1 <= k < |row| ==> '=' in row[k]
    requires Unpackable(row[1..])
    ensures var r := ParseHeader(row);
      (r.Err? && r.error.WrongSizeFormat?) <==> exists k :: 1 <= k < |row| && !IsDigits(SizeText(row[k]))
    ensures var r := ParseHeader(row);
      r.Err? && r.error.WrongSizeFormat? ==>
        r.error.tokens != [] && forall t :: t in r.error.tokens <==> t in row[1..] && !IsDigits(SizeText(t))
    ensures ParseHeader(row).Ok? <==> forall k :: 1 <= k < |row| ==> IsDigits(SizeText(row[k]))
  {
    var tokens := row[1..];
    assert Filter(tokens, LacksSeparator) == [] by {
      forall k | 0 <= k < |tokens| ensures !LacksSeparator(tokens[k]) {
        assert tokens[k] == row[k + 1];
      }
    }
    if exists k :: 1 <= k < |row| && !IsDigits(SizeText(row[k])) {
      var k :| 1 <= k < |row| && !IsDigits(SizeText(row[k]));
      assert HasBadSize(tokens[k - 1]);
    } else {
      forall k | 0 <= k < |tokens| ensures !HasBadSize(tokens[k]) {
        assert tokens[k] == row[k + 1];
      }
    }
  }

  /** With every token holding `=`, the run fails at unpacking exactly when
      no token has a single `=` (which includes an empty list of groups). */
  lemma UnpackRejected(row: seq<string>)
    requires |row| > 0 && forall k :: 1 <= k < |row| ==> '=' in row[k]
    ensures ParseHeader(row) == Err(UnpackMismatch) <==> !Unpackable(row[1..])
  {
    var tokens := row[1..];
    assert Filter(tokens, LacksSeparator) == [] by {
      forall k | 0 <= k < |tokens| ensures !LacksSeparator(tokens[k]) {
        assert tokens[k] == row[k + 1];
      }
    }
  }

  /** An accepted token starts with its name, `=` and its size text. */
  lemma TokenStartsWithNameAndSize(token: string)
    requires '=' in token
    ensures NameText(token) + "=" + SizeText(token) <= token
  {
    var parts := Split(token, '=');
    JoinSplit(token, '=');
    if |parts| > 2 {
      assert Join(parts[1..], '=') == parts[1] + "=" + Join(parts[2..], '=');
    }
  }

  /** The token written for a group: `<name>=<size>`. */
  function FormatToken(name: string, size: nat): string
  {
    name + "=" + ShowNat(size)
  }

  /** A header row written from names and sizes. */
  function FormatHeader(corner: string, names: seq<string>, sizes: seq<nat>): seq<string>
    requires |names| == |sizes|
  {
    [corner] + seq(|names|, k requires 0 <= k < |names| => FormatToken(names[k], sizes[k]))
  }

  lemma FormatTokenSplits(name: string, size: nat)
    requires '=' !in name
    ensures Split(FormatToken(name, size), '=') == [name, ShowNat(size)]
    ensures NameText(FormatToken(name, size)) == name
    ensures SizeText(FormatToken(name, size)) == ShowNat(size)
  {
    assert '=' !in ShowNat(size);
    assert FormatToken(name, size) == name + ['='] + ShowNat(size);
    SplitOnce(name, ShowNat(size), '=');
  }

  /** Parsing inverts formatting: a header written from names without `=`
      and any sizes is accepted and yields those names and sizes. */
  lemma ParseFormatHeader(corner: string, names: seq<string>, sizes: seq<nat>)
    requires |names| == |sizes| > 0
    requires forall k :: 0 <= k < |names| ==> '=' !in names[k]
    ensures ParseHeader(FormatHeader(corner, names, sizes)) == Ok(Header(corner, names, sizes))
  {
    var row := FormatHeader(corner, names, sizes);
    var tokens := row[1..];
    forall k | 0 <= k < |tokens|
      ensures '=' in tokens[k] && |Split(tokens[k], '=')| == 2
      ensures NameText(tokens[k]) == names[k] && IsDigits(SizeText(tokens[k]))
      ensures ParseNat(SizeText(tokens[k])) == sizes[k]
    {
      FormatTokenSplits(names[k], sizes[k]);
      ParseShow(sizes[k]);
    }
    assert |Split(tokens[0], '=')| == 2;
    var r := ParseHeader(row);
    assert r.Ok?;
    assert r.value.names == names;
    assert r.value.sizes == sizes;
  }

  /** `A=` has an empty size part and is rejected. */
  lemma EmptySizeRejected()
    ensures ParseHeader(["G", "A="]) == Err(WrongSizeFormat(["A="]))
  {
    assert Split("A=", '=') == ["A", ""] by { SplitOnce("A", "", '='); }
    assert |Split(["G", "A="][1..][0], '=')| == 2;
  }

  lemma ExtendedTokenParts(name: string, size: nat, extra: string)
    requires '=' !in name
    ensures var token := FormatToken(name, size) + "=" + extra;
      '=' in token && |Split(token, '=')| >= 3 &&
      NameText(token) == name && SizeText(token) == ShowNat(size)
  {
    var token := FormatToken(name, size) + "=" + extra;
    assert '=' !in ShowNat(size);
    assert token == name + ['='] + (ShowNat(size) + ['='] + extra);
    SplitFirst(name, ShowNat(size) + ['='] + extra, '=');
    SplitFirst(ShowNat(size), extra, '=');
    assert token[|name|] == '=';
  }

  /** Sizes are only read between the first and the second `=`: next to a
      well-formed token, a token `<name>=<size>=<extra>` is accepted as a
      group of that size and the rest is dropped. */
  lemma SecondSeparatorIgnored(corner: string, name: string, size: nat, extra: string,
                               other: string, otherSize: nat)
    requires '=' !in name && '=' !in other
    ensures ParseHeader([corner, FormatToken(name, size) + "=" + extra, FormatToken(other, otherSize)])
         == Ok(Header(corner, [name, other], [size, otherSize]))
  {
    var t0 := FormatToken(name, size) + "=" + extra;
    var t1 := FormatToken(other, otherSize);
    var tokens := [t0, t1];
    var row := [corner] + tokens;
    assert row[1..] == tokens;
    ExtendedTokenParts(name, size, extra);
    FormatTokenSplits(other, otherSize);
    assert '=' in t1 by { assert t1[|other|] == '='; }
    ParseShow(size);
    ParseShow(otherSize);
    assert Filter(tokens, LacksSeparator) == [];
    assert Unpackable(tokens) by { assert |Split(tokens[1], '=')| == 2; }
    assert Filter(tokens, HasBadSize) == [];
    var names := seq(|tokens|, k requires 0 <= k < |tokens| => NameText(tokens[k]));
    var sizes := seq(|tokens|, k requires 0 <= k < |tokens| => ParseNat(SizeText(tokens[k])));
    assert names == [name, other];
    assert sizes == [size, otherSize];
    assert ParseHeader(row) == Ok(Header(row[0], names, sizes));
  }

  /** On its own, `A=1=2` splits into three parts, so the transposed parts
      cannot be unpacked into names and sizes. */
  lemma ExtraSeparatorAlone()
    ensures ParseHeader(["G", "A=1=2"]) == Err(UnpackMismatch)
  {
    assert Split("A=1=2", '=') == ["A", "1", "2"] by {
      assert "A=1=2" == "A" + ['='] + "1=2";
      SplitFirst("A", "1=2", '=');
      SplitOnce("1", "2", '=');
    }
    var tokens := ["A=1=2"];
    assert ["G", "A=1=2"][1..] == tokens;
    assert Filter(tokens, LacksSeparator) == [];
    assert !Unpackable(tokens);
  }
}
