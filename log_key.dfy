/**
 * How an error report finds its group (src/api/log.rs, `normalize_error_message`
 * and the key computed in `api_upload_log`).
 *
 * Every run `0x` + one or more hexadecimal digits (either case) is replaced by
 * the placeholder `[MEMORY_ADDRESS]`, scanning left to right and taking each
 * run as long as it goes (the leftmost, greedy, non-overlapping matches of
 * `0x[0-9a-fA-F]+`). The group key is the MD5 hex digest of
 * `normalized + "-" + log_type`; MD5 is not modelled and enters as a function
 * parameter `digest`.
 */
module LogKey {
  import opened Text

  const Placeholder: string := "[MEMORY_ADDRESS]"

  predicate IsHex(c: char) {
    '0' <= c <= '9' || 'a' <= c <= 'f' || 'A' <= c <= 'F'
  }

  /** A memory address (`0x` and a hexadecimal digit) starts at index `i` of `s`. */
  predicate AddressAt(s: string, i: int) {
    0 <= i && i + 2 < |s| && s[i] == '0' && s[i + 1] == 'x' && IsHex(s[i + 2])
  }

  predicate AddressFree(s: string) {
    forall i | 0 <= i < |s| :: !AddressAt(s, i)
  }

  /** Length of the longest prefix of hexadecimal digits. */
  function HexRun(s: string): (n: nat)
    ensures n <= |s|
    ensures n < |s| ==> !IsHex(s[n])
    ensures n > 0 ==> IsHex(s[n - 1])
  {
    if s != [] && IsHex(s[0]) then 1 + HexRun(s[1..]) else 0
  }

  /** `normalize_error_message` */
  function Normalize(s: string): string
    decreases |s|
  {
    if AddressAt(s, 0) then Placeholder + Normalize(s[2 + HexRun(s[2..])..])
    else if s == [] then []
    else [s[0]] + Normalize(s[1..])
  }

  /** The group key: `md5(normalized + "-" + log_type)` in hex. */
  function GroupKey(digest: string -> string, message: string, logType: string): string {
    digest(Normalize(message) + "-" + logType)
  }

  // ---------------------------------------------------------------------
  // what normalization does
  // ---------------------------------------------------------------------

  /** The first character of the result: `[` where an address starts, else the input's own. */
  lemma NormalizeHead(s: string)
    ensures Normalize(s) == [] <==> s == []
    ensures s != [] ==> Normalize(s)[0] == if AddressAt(s, 0) then '[' else s[0]
  {
  }

  /** An address cannot start in the placeholder or run into it. */
  lemma PlaceholderPrefixAddressFree(t: string)
    requires AddressFree(t)
    ensures AddressFree(Placeholder + t)
  {
    var u := Placeholder + t;
    forall i | 0 <= i < |u| ensures !AddressAt(u, i) {
      if i >= |Placeholder| {
        assert u[i..] == t[i - |Placeholder|..];
        assert !AddressAt(t, i - |Placeholder|);
      }
    }
  }

  /** No address survives normalization. */
  lemma {:induction false} NormalizeIsAddressFree(s: string)
    ensures AddressFree(Normalize(s))
    decreases |s|
  {
    if AddressAt(s, 0) {
      NormalizeIsAddressFree(s[2 + HexRun(s[2..])..]);
      PlaceholderPrefixAddressFree(Normalize(s[2 + HexRun(s[2..])..]));
    } else if s != [] {
      var rest := s[1..];
      NormalizeIsAddressFree(rest);
      var t := Normalize(rest);
      var u := [s[0]] + t;
      forall i | 0 <= i < |u| ensures !AddressAt(u, i) {
        if i == 0 && AddressAt(u, 0) {
          // u starts with "0x" and a hex digit: then so did s
          NormalizeHead(rest);
          assert rest[0] == 'x' && !AddressAt(rest, 0);
          assert t == ['x'] + Normalize(rest[1..]);
          NormalizeHead(rest[1..]);
          assert AddressAt(s, 0);
          assert false;
        } else if i > 0 {
          assert !AddressAt(t, i - 1);
        }
      }
    }
  }

  /** Text without an address is left unchanged. */
  lemma {:induction false} NormalizeAddressFreeUnchanged(s: string)
    requires AddressFree(s)
    ensures Normalize(s) == s
  {
    if s != [] {
      assert !AddressAt(s, 0);
      var rest := s[1..];
      forall i | 0 <= i < |rest| ensures !AddressAt(rest, i) {
        assert !AddressAt(s, i + 1);
      }
      NormalizeAddressFreeUnchanged(rest);
      assert s == [s[0]] + rest;
    }
  }

  /** Normalization leaves a message unchanged exactly when it holds no address. */
  lemma NormalizeFixedPoints(s: string)
    ensures Normalize(s) == s <==> AddressFree(s)
  {
    NormalizeIsAddressFree(s);
    if AddressFree(s) {
      NormalizeAddressFreeUnchanged(s);
    }
  }

  /** Normalizing twice is normalizing once. */
  lemma NormalizeIdempotent(s: string)
    ensures Normalize(Normalize(s)) == Normalize(s)
  {
    NormalizeIsAddressFree(s);
    NormalizeAddressFreeUnchanged(Normalize(s));
  }

  // ---------------------------------------------------------------------
  // addresses differing only in their digits
  // ---------------------------------------------------------------------

  /** A hexadecimal run that stops inside `u` is not lengthened by appending. */
  lemma {:induction false} HexRunStopsInside(u: string, t: string)
    requires HexRun(u) < |u|
    ensures HexRun(u + t) == HexRun(u)
  {
    if IsHex(u[0]) {
      HexRunStopsInside(u[1..], t);
      assert (u + t)[1..] == u[1..] + t;
    }
  }

  /** A run of hexadecimal digits in front of `y` adds its length to y's run. */
  lemma {:induction false} HexRunAfterDigits(h: string, y: string)
    requires forall i | 0 <= i < |h| :: IsHex(h[i])
    ensures HexRun(h + y) == |h| + HexRun(y)
  {
    if h != [] {
      assert forall i | 0 <= i < |h[1..]| :: IsHex(h[1..][i]) by {
        forall i | 0 <= i < |h[1..]| ensures IsHex(h[1..][i]) {
          assert h[1..][i] == h[i + 1];
        }
      }
      HexRunAfterDigits(h[1..], y);
      assert (h + y)[0] == h[0];
      assert (h + y)[1..] == h[1..] + y;
    } else {
      assert h + y == y;
    }
  }

  lemma DropAppend(x: string, t: string, j: nat)
    requires j <= |x|
    ensures (x + t)[j..] == x[j..] + t
  {
  }

  /** Every character of `x` from index `k` on is a hexadecimal digit. */
  predicate AllHexFrom(x: string, k: nat) {
    forall j | k <= j < |x| :: IsHex(x[j])
  }

  /** From index `i` to its end, `x` is `0x` followed only by hexadecimal digits. */
  predicate OpenAt(x: string, i: nat) {
    i + 2 <= |x| && x[i] == '0' && x[i + 1] == 'x' && AllHexFrom(x, i + 2)
  }

  /** An address that starts inside `x` also ends inside it, whatever is appended. */
  predicate NoOpenAddress(x: string) {
    forall i | 0 <= i < |x| :: !OpenAt(x, i)
  }

  /** `x + t` joins its parts at a point no address crosses. */
  predicate Seam(x: string, t: string) {
    NoOpenAddress(x) && !(x != [] && x[|x| - 1] == '0' && t != [] && t[0] == 'x')
  }

  /** A prefix ending in a character that is neither a hexadecimal digit nor `x`. */
  predicate CleanBoundary(x: string) {
    x == [] || (!IsHex(x[|x| - 1]) && x[|x| - 1] != 'x')
  }

  lemma CleanBoundaryNoOpen(x: string)
    requires CleanBoundary(x)
    ensures NoOpenAddress(x)
  {
    forall i | 0 <= i < |x| ensures !OpenAt(x, i) {
      if i + 2 < |x| {
        assert !IsHex(x[|x| - 1]);
      }
    }
  }

  /** Dropping a prefix opens no address. */
  lemma NoOpenAddressSuffix(x: string, j: nat)
    requires NoOpenAddress(x) && j <= |x|
    ensures NoOpenAddress(x[j..])
  {
    var s := x[j..];
    forall i | 0 <= i < |s| ensures !OpenAt(s, i) {
      assert !OpenAt(x, j + i);
      if i + 2 <= |s| && AllHexFrom(s, i + 2) {
        assert s[i] == x[j + i] && s[i + 1] == x[j + i + 1];
        forall k | j + i + 2 <= k < |x| ensures IsHex(x[k]) {
          assert x[k] == s[k - j];
        }
      }
    }
  }

  /** A suffix of the prefix meets the rest at the same seam. */
  lemma SeamSuffix(x: string, t: string, j: nat)
    requires Seam(x, t) && j <= |x|
    ensures Seam(x[j..], t)
  {
    NoOpenAddressSuffix(x, j);
    if j < |x| {
      assert x[j..][|x[j..]| - 1] == x[|x| - 1];
    }
  }

  /** The hexadecimal run stops at or before a character that is not a digit. */
  lemma {:induction false} HexRunBelow(s: string, k: nat)
    requires k < |s| && !IsHex(s[k])
    ensures HexRun(s) <= k
  {
    if k > 0 && IsHex(s[0]) {
      assert s[1..][k - 1] == s[k];
      HexRunBelow(s[1..], k - 1);
    }
  }

  /** Normalizing a concatenation at a seam normalizes the parts separately. */
  lemma {:induction false} NormalizeAppend(x: string, t: string)
    requires Seam(x, t)
    ensures Normalize(x + t) == Normalize(x) + Normalize(t)
    decreases |x|, 1
  {
    if x == [] {
      assert x + t == t;
    } else if AddressAt(x, 0) {
      NormalizeAppendAtAddress(x, t);
    } else {
      NormalizeAppendAtChar(x, t);
    }
  }

  /** The case of `NormalizeAppend` where the prefix starts with an address: the address ends inside it. */
  lemma {:induction false} NormalizeAppendAtAddress(x: string, t: string)
    requires Seam(x, t) && AddressAt(x, 0)
    ensures Normalize(x + t) == Normalize(x) + Normalize(t)
    decreases |x|, 0
  {
    assert !OpenAt(x, 0);
    var k :| 2 <= k < |x| && !IsHex(x[k]);
    assert x[2..][k - 2] == x[k];
    HexRunBelow(x[2..], k - 2);
    var j := 2 + HexRun(x[2..]);
    SeamSuffix(x, t, j);
    NormalizeAppend(x[j..], t);
    NormalizeAppendSkip(x, t);
  }

  /** An address that ends inside the prefix, in front of parts that normalize separately. */
  lemma NormalizeAppendSkip(x: string, t: string)
    requires AddressAt(x, 0) && 2 + HexRun(x[2..]) < |x|
    requires var j := 2 + HexRun(x[2..]); Normalize(x[j..] + t) == Normalize(x[j..]) + Normalize(t)
    ensures Normalize(x + t) == Normalize(x) + Normalize(t)
  {
    var u := x + t;
    var j := 2 + HexRun(x[2..]);
    assert AddressAt(u, 0) by {
      assert u[0] == x[0] && u[1] == x[1] && u[2] == x[2];
    }
    DropAppend(x, t, 2);
    HexRunStopsInside(x[2..], t);
    DropAppend(x, t, j);
    assert u[2 + HexRun(u[2..])..] == x[j..] + t;
    NormalizeUnfoldAddress(u);
    NormalizeUnfoldAddress(x);
    AppendAssoc(Placeholder, Normalize(x[j..]), Normalize(t));
  }

  /** One step of normalization where an address starts. */
  lemma NormalizeUnfoldAddress(a: string)
    requires AddressAt(a, 0)
    ensures Normalize(a) == Placeholder + Normalize(a[2 + HexRun(a[2..])..])
  {
  }

  lemma AppendAssoc(a: string, b: string, c: string)
    ensures a + (b + c) == (a + b) + c
  {
  }

  /** The case of `NormalizeAppend` where the prefix starts with a character that is kept. */
  lemma {:induction false} NormalizeAppendAtChar(x: string, t: string)
    requires Seam(x, t) && x != [] && !AddressAt(x, 0)
    ensures Normalize(x + t) == Normalize(x) + Normalize(t)
    decreases |x|, 0
  {
    NoAddressAcross(x, t);
    SeamSuffix(x, t, 1);
    NormalizeAppend(x[1..], t);
    NormalizeAppendStep(x, t);
  }

  /** A kept first character in front of parts that normalize separately. */
  lemma NormalizeAppendStep(x: string, t: string)
    requires x != [] && !AddressAt(x, 0) && !AddressAt(x + t, 0)
    requires Normalize(x[1..] + t) == Normalize(x[1..]) + Normalize(t)
    ensures Normalize(x + t) == Normalize(x) + Normalize(t)
  {
    var u := x + t;
    NormalizeUnfoldChar(u);
    NormalizeUnfoldChar(x);
    DropAppend(x, t, 1);
    assert u[0] == x[0];
    AppendAssoc([x[0]], Normalize(x[1..]), Normalize(t));
  }

  /** An address cannot start at the front of `x + t` unless it starts at the front of `x`. */
  lemma NoAddressAcross(x: string, t: string)
    requires Seam(x, t) && x != [] && !AddressAt(x, 0)
    ensures !AddressAt(x + t, 0)
  {
    var u := x + t;
    if |x| >= 3 {
      assert u[0] == x[0] && u[1] == x[1] && u[2] == x[2];
    } else if |x| == 2 {
      assert u[0] == x[0] && u[1] == x[1];
      assert !OpenAt(x, 0);
    } else {
      assert u[0] == x[0];
    }
  }

  /** One step of normalization where no address starts. */
  lemma NormalizeUnfoldChar(a: string)
    requires a != [] && !AddressAt(a, 0)
    ensures Normalize(a) == [a[0]] + Normalize(a[1..])
  {
  }

  /**
   * An address after a prefix that leaves no address open becomes one
   * placeholder, whatever its digits, and swallows the hexadecimal digits
   * that follow it.
   */
  lemma NormalizeAtAddress(x: string, h: string, y: string)
    requires NoOpenAddress(x)
    requires |h| >= 1 && forall i | 0 <= i < |h| :: IsHex(h[i])
    ensures Normalize(x + ("0x" + h + y)) == Normalize(x) + (Placeholder + Normalize(y[HexRun(y)..]))
  {
    assert ("0x" + h + y)[0] == '0';
    NormalizeAppend(x, "0x" + h + y);
    NormalizeAddressFront(h, y);
  }

  /** An address at the very front becomes the placeholder. */
  lemma NormalizeAddressFront(h: string, y: string)
    requires |h| >= 1 && forall i | 0 <= i < |h| :: IsHex(h[i])
    ensures Normalize("0x" + h + y) == Placeholder + Normalize(y[HexRun(y)..])
  {
    var p := "0x" + h;
    var a := p + y;
    assert AddressAt(a, 0) by {
      assert a[0] == '0' && a[1] == 'x' && a[2] == h[0];
    }
    assert a[2..] == h + y;
    HexRunAfterDigits(h, y);
    assert a[|p|..] == y;
    NormalizeSkip(a, |p|, y);
  }

  /** Normalization of text that starts with an address whose digits run into `y`. */
  lemma NormalizeSkip(a: string, m: nat, y: string)
    requires AddressAt(a, 0) && 2 <= m <= |a| && a[m..] == y
    requires HexRun(a[2..]) == m - 2 + HexRun(y)
    ensures Normalize(a) == Placeholder + Normalize(y[HexRun(y)..])
  {
    assert a[2 + HexRun(a[2..])..] == y[HexRun(y)..];
  }

  /**
   * Two reports whose messages differ only in the digits of an address land
   * in the same group.
   */
  lemma SameKeyModuloAddressDigits(digest: string -> string, x: string, h1: string, h2: string, y: string, logType: string)
    requires NoOpenAddress(x)
    requires |h1| >= 1 && forall i | 0 <= i < |h1| :: IsHex(h1[i])
    requires |h2| >= 1 && forall i | 0 <= i < |h2| :: IsHex(h2[i])
    ensures GroupKey(digest, x + ("0x" + h1 + y), logType) == GroupKey(digest, x + ("0x" + h2 + y), logType)
  {
    NormalizeAtAddress(x, h1, y);
    NormalizeAtAddress(x, h2, y);
  }

  /**
   * The requirement on the prefix cannot be dropped: after the open prefix
   * `0x`, the digit `0` of the next address ends the first one, and the
   * digits `1` and `2` are kept.
   */
  lemma OpenPrefixKeepsDigits(d: char)
    requires d == '1' || d == '2'
    ensures !NoOpenAddress("0x")
    ensures Normalize("0x" + ("0x" + [d] + "")) == Placeholder + ['x', d]
  {
    assert OpenAt("0x", 0);
    var a := "0x" + ("0x" + [d] + "");
    assert a[2..] == "0x" + [d];
    assert a[2..][1..] == ['x', d];
    assert HexRun(a[2..]) == 1;
    NormalizeUnfoldAddress(a);
    assert a[3..] == ['x', d];
    NormalizeAddressFreeUnchanged(['x', d]);
  }

  /** So the messages "0x0x1" and "0x0x2" land in different groups under a digest that tells its inputs apart. */
  lemma OpenPrefixSplitsKeys(digest: string -> string, logType: string)
    requires forall a, b :: digest(a) == digest(b) ==> a == b
    ensures GroupKey(digest, "0x" + ("0x" + "1" + ""), logType) != GroupKey(digest, "0x" + ("0x" + "2" + ""), logType)
  {
    OpenPrefixKeepsDigits('1');
    OpenPrefixKeepsDigits('2');
    var k1 := Placeholder + ['x', '1'] + "-" + logType;
    var k2 := Placeholder + ['x', '2'] + "-" + logType;
    assert k1[|Placeholder| + 1] != k2[|Placeholder| + 1];
  }

  /** "crash at 0xDEADBEEF" and "crash at 0x1" are reported into one group. */
  lemma CrashAddressesShareKey(digest: string -> string, logType: string)
    ensures GroupKey(digest, "crash at 0xDEADBEEF", logType) == GroupKey(digest, "crash at 0x1", logType)
  {
    var x := "crash at ";
    assert "crash at 0xDEADBEEF" == x + ("0x" + "DEADBEEF" + "");
    assert "crash at 0x1" == x + ("0x" + "1" + "");
    CleanBoundaryNoOpen(x);
    SameKeyModuloAddressDigits(digest, x, "DEADBEEF", "1", "", logType);
  }

  /** "crash at " holds no address and is left as it is. */
  lemma CrashPrefixUnchanged()
    ensures Normalize("crash at ") == "crash at "
  {
    NormalizeAddressFreeUnchanged("crash at ");
  }

  /** The address at the end of "crash at 0xDEADBEEF" becomes the placeholder. */
  lemma CrashAddressReplaced()
    ensures Normalize("crash at 0xDEADBEEF") == Normalize("crash at ") + Placeholder
  {
    var x := "crash at ";
    assert "crash at 0xDEADBEEF" == x + ("0x" + "DEADBEEF" + "");
    var y: string := [];
    CleanBoundaryNoOpen(x);
    NormalizeAtAddress(x, "DEADBEEF", y);
    assert y[HexRun(y)..] == [];
    assert Normalize([]) == [];
    assert Placeholder + [] == Placeholder;
  }

  /** "crash at 0xDEADBEEF" normalizes to "crash at [MEMORY_ADDRESS]". */
  lemma CrashAddressNormalized()
    ensures Normalize("crash at 0xDEADBEEF") == "crash at " + Placeholder
  {
    CrashPrefixUnchanged();
    CrashAddressReplaced();
  }

  /** "different crash" holds no address and is left as it is. */
  lemma DifferentCrashUnchanged()
    ensures Normalize("different crash") == "different crash"
  {
    NormalizeAddressFreeUnchanged("different crash");
  }

  /** The digest inputs of "crash at 0xDEADBEEF" and "different crash" differ. */
  lemma CrashDigestInputsDiffer(logType: string)
    ensures Normalize("crash at 0xDEADBEEF") + "-" + logType != Normalize("different crash") + "-" + logType
  {
    CrashAddressNormalized();
    DifferentCrashUnchanged();
    var k1 := "crash at " + Placeholder + "-" + logType;
    var k2 := "different crash" + "-" + logType;
    assert k1[0] != k2[0];
  }

  /**
   * With a digest that tells its inputs apart, reports whose normalized
   * message and type do not spell the same digest input land in different groups.
   */
  lemma DistinctInputsDistinctKeys(digest: string -> string, m1: string, t1: string, m2: string, t2: string)
    requires forall a, b :: digest(a) == digest(b) ==> a == b
    requires Normalize(m1) + "-" + t1 != Normalize(m2) + "-" + t2
    ensures GroupKey(digest, m1, t1) != GroupKey(digest, m2, t2)
  {
  }

  /** A different message gets a different key when the digest tells its inputs apart. */
  lemma DifferentCrashDifferentKey(digest: string -> string, logType: string)
    requires forall a, b :: digest(a) == digest(b) ==> a == b
    ensures GroupKey(digest, "crash at 0xDEADBEEF", logType) != GroupKey(digest, "different crash", logType)
  {
    CrashDigestInputsDiffer(logType);
    DistinctInputsDistinctKeys(digest, "crash at 0xDEADBEEF", logType, "different crash", logType);
  }
}
