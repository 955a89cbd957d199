/** The path printer and parser as they work on buffers. */
module MenuPathBuffer {
  import opened MenuPath

  // ----- printing

  lemma {:induction false} EscapeSnoc(name: string, i: nat)
    requires i < |name|
    ensures Escape(name[..i + 1]) == Escape(name[..i]) + if Special(name[i]) then ['\\', name[i]] else [name[i]]
    decreases i
  {
    if i == 0 {
      assert name[..1][1..] == [] && name[..0] == [];
    } else {
      assert name[..i + 1][1..] == name[1..][..i] && name[..i][1..] == name[1..][..i - 1];
      EscapeSnoc(name[1..], i - 1);
    }
  }

  lemma {:induction false} EscapeGrows(name: string, i: nat)
    requires i <= |name|
    ensures |Escape(name[..i])| <= |Escape(name)|
    decreases |name| - i
  {
    if i < |name| {
      EscapeSnoc(name, i);
      EscapeGrows(name, i + 1);
    } else {
      assert name[..i] == name;
    }
  }

  /** Writes an escaped name from `at` on, always terminated, in full whenever it fits. */
  method EscapeName(name: string, buf: array<char>, at: nat) returns (end: nat)
    requires at < buf.Length
    modifies buf
    ensures at <= end < buf.Length && buf[end] == '\0'
    ensures at + |Escape(name)| < buf.Length ==> buf[..end] == old(buf[..at]) + Escape(name)
  {
    hide Escape;
    end := at;
    assert name[..0] == [] && Escape([]) == [] by { EscapeNothing(); }
    var i := 0;
    while i < |name|
      invariant 0 <= i <= |name| && at <= end < buf.Length
      invariant buf[..end] == old(buf[..at]) + Escape(name[..i])
    {
      EscapeSnoc(name, i);
      EscapeGrows(name, i + 1);
      if Special(name[i]) {
        if end + 2 < buf.Length {
          buf[end] := '\\';
          buf[end + 1] := name[i];
          end := end + 2;
        } else {
          break;
        }
      } else {
        if end + 1 < buf.Length {
          buf[end] := name[i];
          end := end + 1;
        } else {
          break;
        }
      }
      i := i + 1;
    }
    assert i == |name| ==> name[..i] == name;
    buf[end] := '\0';
  }

  lemma EscapeNothing()
    ensures Escape([]) == []
  {
  }

  /** Digits from the least significant up, as the printer collects them. */
  function Reversed(s: string): (r: string)
    ensures |r| == |s| && forall i :: 0 <= i < |s| ==> r[i] == s[|s| - 1 - i]
  {
    seq(|s|, i requires 0 <= i < |s| => s[|s| - 1 - i])
  }

  method CollectDigits(n: nat) returns (digits: string)
    ensures digits == Reversed(Digits(n))
  {
    digits := [];
    var val := n;
    while true
      invariant Digits(n) == Digits(val) + Reversed(digits)
      decreases val
    {
      ghost var before := digits;
      digits := digits + [DigitChar(val % 10)];
      assert Reversed(digits) == [DigitChar(val % 10)] + Reversed(before);
      if val / 10 == 0 {
        assert Digits(val) == [DigitChar(val)];
        assert Digits(n) == Reversed(digits);
        break;
      }
      val := val / 10;
    }
    assert Reversed(Reversed(digits)) == digits;
  }

  /** Writes collected digits back in reading order. */
  method WriteDigits(digits: string, ghost number: string, buf: array<char>, at: nat) returns (end: nat)
    requires at < buf.Length && digits == Reversed(number)
    modifies buf
    ensures at <= end < buf.Length
    ensures at + |number| < buf.Length ==> buf[..end] == old(buf[..at]) + number
  {
    end := at;
    ghost var front := buf[..at];
    var i := |digits|;
    while i > 0 && end < buf.Length - 1
      invariant 0 <= i <= |digits| && end == at + (|digits| - i) < buf.Length
      invariant buf[..end] == front + number[..|digits| - i]
    {
      ghost var k := |digits| - i;
      assert number[..k + 1] == number[..k] + [digits[i - 1]];
      ghost var was := buf[..end];
      buf[end] := digits[i - 1];
      assert buf[..end + 1] == was + [digits[i - 1]];
      end := end + 1;
      i := i - 1;
    }
    assert i == 0 ==> number[..|digits| - i] == number;
  }

  /** Writes the duplicate number of an entry that has namesakes before it. */
  method WriteSuffix(dup: nat, buf: array<char>, at: nat) returns (end: nat)
    requires at < buf.Length
    modifies buf
    ensures at <= end < buf.Length
    ensures at + |Suffix(dup)| < buf.Length ==> buf[..end] == old(buf[..at]) + Suffix(dup)
  {
    hide Digits, Reversed;
    end := at;
    if dup > 0 && end < buf.Length - 1 {
      ghost var front := buf[..at];
      buf[end] := '#';
      end := end + 1;
      assert buf[..end] == front + ['#'];
      var digits := CollectDigits(dup);
      end := WriteDigits(digits, Digits(dup), buf, end);
    }
  }

  // ----- parsing

  /** Past the digits that start at `q`. */
  method SkipDigits(path: string, q: nat) returns (end: nat)
    requires q <= |path|
    ensures end == q + Span(path[q..])
  {
    end := q;
    while end < |path| && IsDigit(path[end])
      invariant q <= end <= |path| && forall i :: q <= i < end ==> IsDigit(path[i])
    {
      end := end + 1;
    }
    SpanIs(path[q..], end - q);
  }

  /** Whether the `#` at `p` starts a duplicate number, and where that number ends. */
  method AtNumber(path: string, p: nat) returns (numbered: bool, end: nat)
    requires p < |path| && path[p] == '#'
    ensures numbered <==> Numbered(path[p..])
    ensures numbered ==> end == p + 1 + Span(path[p..][1..]) && p + 1 < end <= |path|
  {
    hide Span;
    assert path[p..][1..] == path[p + 1..];
    end := SkipDigits(path, p + 1);
    numbered := end > p + 1 && (end == |path| || path[end] == '/');
  }

  /** First pass: how long the unescaped name will be. */
  method MeasureComponent(path: string) returns (len: nat)
    ensures len == |Parse(path).name|
  {
    hide Parse, Numbered;
    len := 0;
    var scan := 0;
    assert path[0..] == path;
    while scan < |path| && path[scan] != '/'
      invariant 0 <= scan <= |path|
      invariant |Parse(path).name| == len + |Parse(path[scan..]).name|
    {
      ParseAt(path, scan);
      if path[scan] == '\\' && scan + 1 < |path| {
        len, scan := len + 1, scan + 2;
        continue;
      }
      if path[scan] == '#' {
        var numbered, end := AtNumber(path, scan);
        if numbered {
          return;
        }
      }
      NotNumbered(path, scan);
      len, scan := len + 1, scan + 1;
    }
    ParseEnd(path[scan..]);
  }

  lemma NotNumbered(path: string, p: nat)
    requires p < |path|
    ensures path[p] != '#' ==> !Numbered(path[p..])
  {
  }

  lemma ParseEnd(s: string)
    requires Ends(s)
    ensures Parse(s) == Parsed([], 0, AfterSeparator(s))
  {
  }

  /** One step of the parse, at any place in the path. */
  lemma ParseAt(path: string, p: nat)
    requires p < |path| && path[p] != '/'
    ensures var s := path[p..];
            if path[p] == '\\' && p + 1 < |path| then
              Parse(s) == Parse(path[p + 2..]).(name := [path[p + 1]] + Parse(path[p + 2..]).name)
            else if Numbered(s) then
              Parse(s) == Parsed([], Decimal(s[1..1 + Span(s[1..])]), AfterSeparator(s[1 + Span(s[1..])..]))
            else
              Parse(s) == Parse(path[p + 1..]).(name := [path[p]] + Parse(path[p + 1..]).name)
  {
    var s := path[p..];
    assert s[1..] == path[p + 1..];
    if p + 1 < |path| {
      assert s[2..] == path[p + 2..] && s[1] == path[p + 1];
    }
    hide Numbered, Decimal, Span, AfterSeparator;
  }

  /** The measured buffer holds the name exactly; the rest starts after the separator. */
  method ParseComponent(path: string) returns (name: string, dup: nat, rest: string)
    ensures Parsed(name, dup, rest) == Parse(path)
  {
    hide Parse, Numbered, Decimal, Span, AfterSeparator;
    var len := MeasureComponent(path);
    var buf := new char[len + 1](_ => '\0');
    dup := 0;
    var p, j := 0, 0;
    ghost var all := Parse(path);
    assert path[0..] == path;
    while p < |path| && path[p] != '/'
      invariant 0 <= p <= |path| && 0 <= j <= len
      invariant all.name == buf[..j] + Parse(path[p..]).name && all.rest == Parse(path[p..]).rest
      invariant all.dup == Parse(path[p..]).dup
    {
      ParseAt(path, p);
      if path[p] == '\\' && p + 1 < |path| {
        buf[j] := path[p + 1];
        p, j := p + 2, j + 1;
        continue;
      }
      if path[p] == '#' {
        var numbered, end := AtNumber(path, p);
        if numbered {
          NumberAt(path, p, end);
          return buf[..j], Decimal(path[p + 1..end]), AfterSeparator(path[end..]);
        }
      }
      NotNumbered(path, p);
      buf[j] := path[p];
      p, j := p + 1, j + 1;
    }
    ParseEnd(path[p..]);
    return buf[..j], 0, AfterSeparator(path[p..]);
  }

  lemma NumberAt(path: string, p: nat, end: nat)
    requires p < |path| && Numbered(path[p..]) && end == p + 1 + Span(path[p..][1..])
    ensures p + 1 < end <= |path| && AllDigits(path[p + 1..end])
    ensures path[p..][1..1 + Span(path[p..][1..])] == path[p + 1..end]
    ensures path[p..][1 + Span(path[p..][1..])..] == path[end..]
  {
    var s := path[p..];
    assert forall i :: 0 <= i < Span(s[1..]) ==> path[p + 1 + i] == s[1..][i];
  }
}
