/**
 The activation request: the tool joins path and password with a carriage return
 (src/user/activation.c:25-37, 109-129), the kernel splits and trims the buffer in place
 (src/kernel/activation.c:50-71).
 */
module Request {
  import opened Bytes
  import opened Options

  const NUL: byte := 0
  const CR: byte := 13

  /** `isspace` of the kernel: tab to carriage return, blank, and the non-breaking blank. */
  predicate IsSpace(c: byte) {
    9 <= c <= 13 || c == 32 || c == 160
  }

  predicate AllSpace(s: seq<byte>) {
    forall i :: 0 <= i < |s| ==> IsSpace(s[i])
  }

  /** The position of the first byte that is NUL or `c`, or the length. */
  function Scan(s: seq<byte>, c: byte): (n: nat)
    ensures n <= |s| && (n < |s| ==> s[n] == NUL || s[n] == c)
    ensures forall i :: 0 <= i < n ==> s[i] != NUL && s[i] != c
  {
    if s == [] || s[0] == NUL || s[0] == c then 0 else 1 + Scan(s[1..], c)
  }

  /** The C string at the start of a buffer. */
  function CString(s: seq<byte>): (r: seq<byte>)
    ensures r <= s && NUL !in r
  {
    s[..Scan(s, NUL)]
  }

  lemma {:induction false} CStringUnique(s: seq<byte>, n: nat)
    requires n < |s| && s[n] == NUL && forall i :: 0 <= i < n ==> s[i] != NUL
    ensures CString(s) == s[..n]
  {
    assert Scan(s, NUL) == n;
  }

  function TrimLeft(s: seq<byte>): (r: seq<byte>)
    ensures |r| <= |s|
  {
    if s != [] && IsSpace(s[0]) then TrimLeft(s[1..]) else s
  }

  function TrimRight(s: seq<byte>): (r: seq<byte>)
    ensures |r| <= |s|
  {
    if s != [] && IsSpace(s[|s| - 1]) then TrimRight(s[..|s| - 1]) else s
  }

  function Trim(s: seq<byte>): seq<byte> {
    TrimLeft(TrimRight(s))
  }

  /** What the parse of a buffer gives: path and password. */
  function Parse(data: seq<byte>): Option<(seq<byte>, seq<byte>)>
    requires data != []
  {
    var sep := Scan(data, CR);
    if data[|data| - 1] != NUL || data[sep] != CR then None
    else
      var path := Trim(data[..sep]);
      if path == [] then None else Some((path, CString(data[sep + 1..])))
  }

  lemma {:induction false} TrimRightIsPrefix(s: seq<byte>)
    ensures TrimRight(s) == s[..|TrimRight(s)|] && AllSpace(s[|TrimRight(s)|..])
    ensures TrimRight(s) != [] ==> !IsSpace(TrimRight(s)[|TrimRight(s)| - 1])
  {
    if s != [] && IsSpace(s[|s| - 1]) {
      var front, n := s[..|s| - 1], |TrimRight(s)|;
      TrimRightIsPrefix(front);
      assert s[n..] == front[n..] + [s[|s| - 1]];
    }
  }

  lemma {:induction false} TrimLeftIsSuffix(s: seq<byte>)
    ensures TrimLeft(s) == s[|s| - |TrimLeft(s)|..] && AllSpace(s[..|s| - |TrimLeft(s)|])
    ensures TrimLeft(s) != [] ==> !IsSpace(TrimLeft(s)[0])
  {
    if s != [] && IsSpace(s[0]) {
      var n := |s| - |TrimLeft(s)|;
      TrimLeftIsSuffix(s[1..]);
      assert s[..n] == [s[0]] + s[1..][..n - 1];
    }
  }

  /** Trimming takes blanks away at both ends, and all of them. */
  lemma {:induction false} TrimIsMiddle(s: seq<byte>) returns (i: nat, j: nat)
    ensures i <= j <= |s| && Trim(s) == s[i..j] && AllSpace(s[..i]) && AllSpace(s[j..])
    ensures Trim(s) != [] ==> !IsSpace(s[i]) && !IsSpace(s[j - 1])
  {
    var r := TrimRight(s);
    TrimRightIsPrefix(s);
    TrimLeftIsSuffix(r);
    i, j := |r| - |TrimLeft(r)|, |r|;
    assert s[..i] == r[..i];
  }

  lemma {:induction false} TrimEmpty(s: seq<byte>)
    ensures Trim(s) == [] <==> AllSpace(s)
  {
    var i, j := TrimIsMiddle(s);
    if Trim(s) == [] {
      assert s == s[..i] + s[i..];
    }
  }

  /** Tab to carriage return, blank, non-breaking blank. */
  predicate Blank(c: byte) {
    c in [9, 10, 11, 12, 13, 32, 160]
  }

  /** The first carriage return, with no NUL in front of it. */
  ghost predicate FirstReturn(data: seq<byte>, k: nat) {
    k < |data| && data[k] == 13 && forall i :: 0 <= i < k ==> data[i] != 0 && data[i] != 13
  }

  /** Some character ahead of position `k` is not blank. */
  ghost predicate SomeText(data: seq<byte>, k: nat)
    requires k <= |data|
  {
    exists i :: 0 <= i < k && !Blank(data[i])
  }

  lemma {:induction false} ScanIsFirst(data: seq<byte>, k: nat)
    requires FirstReturn(data, k)
    ensures Scan(data, CR) == k
  {
    ScanAt(data, CR, k);
  }

  /**
   Which buffers are accepted: those that end in NUL and have a carriage return with some text, and no NUL,
   in front of it.
   */
  lemma {:induction false} ParsesExactly(data: seq<byte>)
    requires data != []
    ensures Parse(data).Some? <==> data[|data| - 1] == 0 && exists k :: FirstReturn(data, k) && SomeText(data, k)
  {
    var n := Scan(data, CR);
    if k :| FirstReturn(data, k) && SomeText(data, k) {
      ScanIsFirst(data, k);
    }
    if data[|data| - 1] == NUL {
      ScanStops(data, CR);
      TextIsNotSpace(data, n);
      assert data[n] == CR ==> FirstReturn(data, n);
    }
  }

  lemma {:induction false} ScanStops(s: seq<byte>, c: byte)
    requires s != [] && s[|s| - 1] == NUL
    ensures Scan(s, c) < |s|
  {
  }

  lemma {:induction false} TextIsNotSpace(data: seq<byte>, n: nat)
    requires n <= |data|
    ensures SomeText(data, n) <==> Trim(data[..n]) != []
  {
    TrimEmpty(data[..n]);
    assert forall i :: 0 <= i < n ==> data[..n][i] == data[i];
    if !AllSpace(data[..n]) {
      var i :| 0 <= i < n && !IsSpace(data[..n][i]);
      assert !Blank(data[i]);
    }
  }

  /**
   What is accepted: as path the text in front of the carriage return without the blanks around it, as
   password what follows up to the first NUL.
   */
  lemma {:induction false} ParsedParts(data: seq<byte>, k: nat) returns (i: nat, j: nat, n: nat)
    requires data != [] && data[|data| - 1] == 0 && FirstReturn(data, k) && SomeText(data, k)
    ensures i < j <= k < n < |data|
    ensures Parse(data) == Some((data[i..j], data[k + 1..n]))
    ensures !Blank(data[i]) && !Blank(data[j - 1])
    ensures forall m :: 0 <= m < i || j <= m < k ==> Blank(data[m])
    ensures data[n] == 0 && forall m :: k < m < n ==> data[m] != 0
  {
    hide Scan, Trim, CString, Blank;
    ScanIsFirst(data, k);
    TextIsNotSpace(data, k);
    i, j := PathPart(data, k);
    n := PasswordPart(data, k);
  }

  lemma {:induction false} PathPart(data: seq<byte>, k: nat) returns (i: nat, j: nat)
    requires k <= |data|
    ensures i <= j <= k && Trim(data[..k]) == data[i..j]
    ensures i < j ==> !Blank(data[i]) && !Blank(data[j - 1])
    ensures forall m :: 0 <= m < i || j <= m < k ==> Blank(data[m])
  {
    hide Trim;
    var path := data[..k];
    i, j := TrimIsMiddle(path);
    var front, back := path[..i], path[j..];
    assert path[i..j] == data[i..j];
    assert forall m :: 0 <= m < i ==> data[m] == front[m];
    assert forall m :: j <= m < k ==> data[m] == back[m - j];
  }

  lemma {:induction false} PasswordPart(data: seq<byte>, k: nat) returns (n: nat)
    requires k < |data| - 1 && data[|data| - 1] == NUL
    ensures k < n < |data| && CString(data[k + 1..]) == data[k + 1..n]
    ensures data[n] == 0 && forall m :: k < m < n ==> data[m] != 0
  {
    var rest := data[k + 1..];
    ScanStops(rest, NUL);
    n := k + 1 + Scan(rest, NUL);
    assert rest[..n - k - 1] == data[k + 1..n];
    assert forall m :: k < m < n ==> data[m] == rest[m - k - 1];
  }

  // ---------------------------------------------------------------- the kernel side

  /** `strchr(data, '\r')` on a buffer that ends in NUL. */
  method StrChr(data: array<byte>, c: byte) returns (i: nat)
    requires data.Length > 0 && data[data.Length - 1] == NUL
    ensures i == Scan(data[..], c) < data.Length
  {
    i := 0;
    while data[i] != NUL && data[i] != c
      invariant 0 <= i < data.Length
      invariant forall j :: 0 <= j < i ==> data[j] != NUL && data[j] != c
      decreases data.Length - i
    {
      i := i + 1;
    }
    ScanAt(data[..], c, i);
  }

  lemma {:induction false} ScanAt(s: seq<byte>, c: byte, i: nat)
    requires i < |s| && (s[i] == NUL || s[i] == c)
    requires forall j :: 0 <= j < i ==> s[j] != NUL && s[j] != c
    ensures Scan(s, c) == i
  {
  }

  /** The end of the string without its trailing blanks. */
  method TrimmedEnd(data: array<byte>, size: nat) returns (end: nat)
    requires size <= data.Length
    ensures end <= size && TrimRight(data[..size]) == data[..end]
  {
    end := size;
    while end > 0 && IsSpace(data[end - 1])
      invariant 0 <= end <= size
      invariant TrimRight(data[..size]) == TrimRight(data[..end])
    {
      assert data[..end][..end - 1] == data[..end - 1];
      end := end - 1;
    }
  }

  /** `skip_spaces` of a string that ends in NUL at `end`. */
  method SkipSpaces(data: array<byte>, end: nat) returns (first: nat)
    requires end < data.Length && data[end] == NUL
    ensures first <= end && TrimLeft(data[..end]) == data[first..end]
  {
    first := 0;
    assert data[..end] == data[0..end];
    while IsSpace(data[first])
      invariant 0 <= first <= end
      invariant TrimLeft(data[..end]) == TrimLeft(data[first..end])
      decreases end - first
    {
      assert data[first..end][1..] == data[first + 1..end];
      first := first + 1;
    }
  }

  /** `strim` of the string of `size` characters at the start: cuts it, and returns where it starts. */
  method StrTrim(data: array<byte>, size: nat) returns (first: nat)
    requires size < data.Length && data[size] == NUL
    requires forall i :: 0 <= i < size ==> data[i] != NUL
    modifies data
    ensures first <= size && CString(data[first..]) == Trim(old(data[..size]))
    ensures data[size..] == old(data[size..])
  {
    var end := TrimmedEnd(data, size);
    ghost var kept := data[..end];
    data[end] := NUL;
    assert data[..end] == kept;
    first := SkipSpaces(data, end);
    StringFrom(data[..], first, end);
    assert data[..][first..] == data[first..];
  }

  lemma {:induction false} StringFrom(s: seq<byte>, first: nat, end: nat)
    requires first <= end < |s| && s[end] == NUL && forall i :: 0 <= i < end ==> s[i] != NUL
    ensures CString(s[first..]) == s[first..end]
  {
    var t := s[first..];
    assert forall i :: 0 <= i < end - first ==> t[i] == s[first + i];
    CStringUnique(t, end - first);
    assert t[..end - first] == s[first..end];
  }

  /** `parse_call_args`: the two results are positions in the buffer, which is overwritten. */
  method ParseCallArgs(data: array<byte>) returns (args: Option<(nat, nat)>)
    requires data.Length > 0
    modifies data
    ensures args.None? <==> Parse(old(data[..])).None?
    ensures args.Some? ==>
              && args.value.0 <= data.Length && args.value.1 <= data.Length
              && Parse(old(data[..])) == Some((CString(data[args.value.0..]), CString(data[args.value.1..])))
  {
    if data[data.Length - 1] != NUL {
      return None;
    }
    var sep := StrChr(data, CR);
    if data[sep] != CR {
      return None;
    }
    ghost var before := data[..];
    data[sep] := NUL;
    assert data[..sep] == before[..sep] && data[sep + 1..] == before[sep + 1..];
    assert forall i :: 0 <= i < sep ==> data[i] == before[i];
    var first := StrTrim(data, sep);
    assert data[sep..][1..] == data[sep + 1..];
    assert data[sep + 1..] == before[sep + 1..];
    EmptyString(data[first..]);
    if data[first] == NUL {
      return None;
    }
    return Some((first, sep + 1));
  }

  lemma {:induction false} EmptyString(s: seq<byte>)
    requires s != []
    ensures CString(s) == [] <==> s[0] == NUL
  {
  }

  // ---------------------------------------------------------------- the tool side

  /** `concat`, as far as it is sent: both strings, the separator and the final NUL. */
  method Concat(a: seq<byte>, b: seq<byte>) returns (buf: array<byte>)
    ensures fresh(buf) && buf[..] == a + [CR] + b + [NUL]
  {
    buf := new byte[|a| + |b| + 2](_ => NUL);
    forall i | 0 <= i < |a| {
      buf[i] := a[i];
    }
    buf[|a|] := CR;
    forall i | 0 <= i < |b| {
      buf[|a| + 1 + i] := b[i];
    }
    var all := a + [CR] + b + [NUL];
    assert forall i :: 0 <= i < |all| ==> buf[i] == all[i];
  }

  /** `do_basic_checks_on` */
  predicate BasicChecks(path: seq<byte>, passwd: seq<byte>) {
    CR !in passwd && CR !in path
  }

  /** What the tool sends is what the kernel reads: the trimmed path and the unchanged password. */
  lemma {:induction false} RequestRoundTrip(path: seq<byte>, passwd: seq<byte>)
    requires NUL !in path && NUL !in passwd && BasicChecks(path, passwd)
    ensures Parse(path + [CR] + passwd + [NUL]) == if AllSpace(path) then None else Some((Trim(path), passwd))
  {
    var data := path + [CR] + passwd + [NUL];
    SplitAt(path, passwd, data);
    TrimEmpty(path);
  }

  lemma {:induction false} SplitAt(path: seq<byte>, rest: seq<byte>, data: seq<byte>)
    requires NUL !in path && CR !in path && NUL !in rest && data == path + [CR] + rest + [NUL]
    ensures Scan(data, CR) == |path| && data[..|path|] == path
    ensures CString(data[|path| + 1..]) == rest
  {
    assert forall i :: 0 <= i < |path| ==> data[i] == path[i];
    ScanAt(data, CR, |path|);
    var tail := data[|path| + 1..];
    assert tail == rest + [NUL];
    assert forall i :: 0 <= i < |rest| ==> tail[i] == rest[i];
    CStringUnique(tail, |rest|);
    assert tail[..|rest|] == rest;
  }

  lemma {:induction false} ScanFinds(s: seq<byte>, c: byte)
    requires c in s
    ensures Scan(s, c) < |s|
  {
  }

  /** Of the two checks of the tool, the one on the path is what the password depends on. */
  lemma {:induction false} PasswordNeedsPathCheck(path: seq<byte>, passwd: seq<byte>)
    requires NUL !in path && NUL !in passwd
    requires Parse(path + [CR] + passwd + [NUL]).Some?
    ensures Parse(path + [CR] + passwd + [NUL]).value.1 == passwd <==> CR !in path
  {
    var data := path + [CR] + passwd + [NUL];
    if CR !in path {
      SplitAt(path, passwd, data);
    } else {
      SplitAtFirst(path, passwd, data);
    }
  }

  /** A carriage return in the path splits there, and the rest of the path joins the password. */
  lemma {:induction false} SplitAtFirst(path: seq<byte>, passwd: seq<byte>, data: seq<byte>)
    requires NUL !in path && CR in path && NUL !in passwd && data == path + [CR] + passwd + [NUL]
    ensures Scan(data, CR) < |path| && |CString(data[Scan(data, CR) + 1..])| > |passwd|
  {
    var n := Scan(path, CR);
    ScanFinds(path, CR);
    var front, rest := path[..n], path[n + 1..] + [CR] + passwd;
    assert data == front + [CR] + rest + [NUL];
    assert forall i :: 0 <= i < n ==> front[i] == path[i];
    assert NUL !in path[n + 1..];
    SplitAt(front, rest, data);
  }
}
