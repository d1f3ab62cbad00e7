/**
  Cutting a text at the leftmost, non-overlapping occurrences of a separator: `split_source_prefixes`
  and `find_and_replace` are both this, joined with nothing or with another text.
 */
module Separated {

  predicate OccursAt(s: string, p: string, i: nat) { i + |p| <= |s| && s[i..i + |p|] == p }

  /** `std::string::find`: the first occurrence at or after `start`; `|s| + 1` stands for `npos`. */
  function FindFrom(s: string, p: string, start: nat): (i: nat)
    ensures i <= |s| ==> start <= i && OccursAt(s, p, i)
    ensures i > |s| ==> i == |s| + 1
    ensures forall j :: start <= j < i ==> !OccursAt(s, p, j)
    decreases |s| + 1 - start
  {
    if start > |s| then |s| + 1 else if OccursAt(s, p, start) then start else FindFrom(s, p, start + 1)
  }

  function Pieces(s: string, sep: string): (r: seq<string>)
    requires sep != []
    ensures r != []
  {
    var i := FindFrom(s, sep, 0);
    if i > |s| then [s] else [s[..i]] + Pieces(s[i + |sep|..], sep)
  }

  function Joined(pieces: seq<string>, sep: string): string
    requires pieces != []
  {
    if |pieces| == 1 then pieces[0] else pieces[0] + (sep + Joined(pieces[1..], sep))
  }

  lemma OccursShifted(s: string, p: string, k: nat)
    requires k <= |s|
    ensures forall i :: 0 <= i <= |s| - k ==> (OccursAt(s[k..], p, i) <==> OccursAt(s, p, k + i))
  {
    forall i | 0 <= i <= |s| - k
      ensures OccursAt(s[k..], p, i) <==> OccursAt(s, p, k + i)
    {
      if i + |p| <= |s| - k {
        assert s[k..][i..i + |p|] == s[k + i..k + i + |p|];
      }
    }
  }

  lemma FindShifted(s: string, p: string, k: nat)
    requires k <= |s|
    ensures FindFrom(s, p, k) == k + FindFrom(s[k..], p, 0)
  {
    OccursShifted(s, p, k);
    var i, j := FindFrom(s, p, k), FindFrom(s[k..], p, 0);
    if i <= |s| {
      assert OccursAt(s[k..], p, i - k);
    }
    if j <= |s[k..]| {
      assert OccursAt(s, p, k + j);
    }
  }

  lemma PiecesUnfold(s: string, sep: string)
    requires sep != []
    ensures
      var i := FindFrom(s, sep, 0);
      Pieces(s, sep) == if i > |s| then [s] else [s[..i]] + Pieces(s[i + |sep|..], sep)
  {}

  lemma PiecesStep(out: seq<string>, s: string, sep: string, last: nat)
    requires sep != [] && last <= |s|
    ensures
      var next := FindFrom(s, sep, last);
      if next > |s| then Pieces(s[last..], sep) == [s[last..]]
      else
        && last <= next && next + |sep| <= |s|
        && out + Pieces(s[last..], sep) == out + [s[last..next]] + Pieces(s[next + |sep|..], sep)
  {
    hide Pieces, FindFrom;
    FindShifted(s, sep, last);
    PiecesUnfold(s[last..], sep);
    var next := FindFrom(s, sep, last);
    if next <= |s| {
      SlicesShifted(s, sep, last, next);
      AppendPiece(out, s[last..next], Pieces(s[next + |sep|..], sep));
    }
  }

  lemma SlicesShifted(s: string, sep: string, last: nat, next: nat)
    requires last <= next && next + |sep| <= |s|
    ensures s[last..][..next - last] == s[last..next] && s[last..][next - last + |sep|..] == s[next + |sep|..]
  {}

  lemma AppendPiece(out: seq<string>, piece: string, tail: seq<string>)
    ensures out + ([piece] + tail) == out + [piece] + tail
  {}

  method SplitSourcePrefixes(s: string, delimiter: string) returns (out: seq<string>)
    requires delimiter != []
    ensures out == Pieces(s, delimiter)
  {
    hide Pieces, FindFrom, OccursAt;
    out := [];
    var last := 0;
    var next := FindFrom(s, delimiter, last);
    assert s[0..] == s;
    while next <= |s|
      invariant last <= |s| && next == FindFrom(s, delimiter, last)
      invariant out + Pieces(s[last..], delimiter) == Pieces(s, delimiter)
      decreases |s| - last
    {
      PiecesStep(out, s, delimiter, last);
      out := out + [s[last..next]];
      last := next + |delimiter|;
      next := FindFrom(s, delimiter, last);
    }
    PiecesStep(out, s, delimiter, last);
    out := out + [s[last..]];
  }

  /** The replaced text grows in place; scanning goes on behind what was inserted. */
  method FindAndReplace(text: string, from: string, to: string) returns (str: string)
    requires from != []
    ensures str == Joined(Pieces(text, from), to)
  {
    hide Pieces, FindFrom, OccursAt, Joined;
    str := text;
    var pos := FindFrom(str, from, 0);
    ghost var done, rest := [], text;
    while pos <= |str|
      invariant str == done + rest && pos == |done| + FindFrom(rest, from, 0)
      invariant done + Joined(Pieces(rest, from), to) == Joined(Pieces(text, from), to)
      decreases |rest|
    {
      ghost var i := pos - |done|;
      ReplaceStep(done, rest, from, to, i);
      InPlace(done, rest, from, to, i);
      str := str[..pos] + to + str[pos + |from|..];
      done, rest := done + (rest[..i] + to), rest[i + |from|..];
      assert str[|done|..] == rest;
      FindShifted(str, from, |done|);
      pos := FindFrom(str, from, pos + |to|);
    }
    Untouched(rest, from, to);
  }

  lemma InPlace(done: string, rest: string, from: string, to: string, i: nat)
    requires i + |from| <= |rest|
    ensures
      var str, pos := done + rest, |done| + i;
      str[..pos] + to + str[pos + |from|..] == done + (rest[..i] + to) + rest[i + |from|..]
  {}

  lemma Untouched(s: string, from: string, to: string)
    requires from != [] && FindFrom(s, from, 0) > |s|
    ensures Joined(Pieces(s, from), to) == s
  {}

  lemma ReplaceStep(done: string, rest: string, from: string, to: string, i: nat)
    requires from != [] && i == FindFrom(rest, from, 0) <= |rest|
    ensures i + |from| <= |rest|
    ensures
      done + Joined(Pieces(rest, from), to)
      == done + (rest[..i] + to) + Joined(Pieces(rest[i + |from|..], from), to)
  {
    var tail := Pieces(rest[i + |from|..], from);
    assert Pieces(rest, from) == [rest[..i]] + tail;
    hide Pieces, FindFrom;
    assert ([rest[..i]] + tail)[1..] == tail;
    assert Joined([rest[..i]] + tail, to) == rest[..i] + (to + Joined(tail, to));
    hide Joined;
    assert done + (rest[..i] + (to + Joined(tail, to))) == done + (rest[..i] + to) + Joined(tail, to);
  }

  /** Joining the pieces with the separator gives the text back. */
  lemma {:induction false} JoinPieces(s: string, sep: string)
    requires sep != []
    ensures Joined(Pieces(s, sep), sep) == s
  {
    var i := FindFrom(s, sep, 0);
    if i <= |s| {
      var tail := s[i + |sep|..];
      JoinPieces(tail, sep);
      assert ([s[..i]] + Pieces(tail, sep))[1..] == Pieces(tail, sep);
      assert s == s[..i] + (sep + tail);
    }
  }

  lemma OccursInPrefix(s: string, p: string, i: nat, j: nat)
    requires i <= |s|
    ensures OccursAt(s[..i], p, j) ==> OccursAt(s, p, j)
  {
    if OccursAt(s[..i], p, j) {
      assert s[..i][j..j + |p|] == s[j..j + |p|];
    }
  }

  /** No piece holds the separator. */
  lemma {:induction false} PiecesAreFree(s: string, sep: string, k: nat, j: nat)
    requires sep != [] && k < |Pieces(s, sep)|
    ensures !OccursAt(Pieces(s, sep)[k], sep, j)
  {
    hide Pieces, FindFrom;
    PiecesUnfold(s, sep);
    var i := FindFrom(s, sep, 0);
    if i <= |s| {
      if k == 0 {
        OccursInPrefix(s, sep, i, j);
      } else {
        PiecesAreFree(s[i + |sep|..], sep, k - 1, j);
      }
    } else if j <= |s| {
      assert !OccursAt(s, sep, j);
    }
  }

  /** The empty text is one empty piece. */
  lemma EmptyTextIsOnePiece(sep: string)
    requires sep != []
    ensures Pieces([], sep) == [[]]
  {
    assert FindFrom([], sep, 0) == 1;
  }

  lemma CharOccurs(s: string, c: char, i: nat)
    ensures OccursAt(s, [c], i) <==> i < |s| && s[i] == c
  {
    if i < |s| {
      assert s[i..i + 1] == [s[i]];
    }
  }

  /** The first occurrence of a character behind a text without it. */
  lemma FindChar(head: string, c: char, tail: string)
    requires c !in head
    ensures FindFrom(head, [c], 0) == |head| + 1
    ensures FindFrom(head + ([c] + tail), [c], 0) == |head|
  {
    hide OccursAt, FindFrom;
    var s := head + ([c] + tail);
    forall j: nat
      ensures OccursAt(head, [c], j) <==> j < |head| && head[j] == c
      ensures OccursAt(s, [c], j) <==> j < |s| && s[j] == c
    {
      CharOccurs(head, c, j);
      CharOccurs(s, c, j);
    }
    assert forall j :: 0 <= j < |head| ==> s[j] == head[j] != c;
    assert s[|head|] == c;
  }

  /** A single character cuts once at each place where it stands. */
  lemma {:induction false} PieceCount(s: string, c: char)
    ensures |Pieces(s, [c])| == 1 + multiset(s)[c]
  {
    var i := FindFrom(s, [c], 0);
    if i <= |s| {
      var head, tail := s[..i], s[i + 1..];
      PieceCount(tail, c);
      CharOccurs(s, c, i);
      assert s == head + ([c] + tail);
      CharAbsent(s, c, i, head);
    } else {
      CharAbsent(s, c, |s|, s);
    }
  }

  lemma CharAbsent(s: string, c: char, i: nat, head: string)
    requires i <= |s| && i <= FindFrom(s, [c], 0) && head == s[..i]
    ensures multiset(head)[c] == 0
  {
    forall j | 0 <= j < i
      ensures head[j] != c
    {
      CharOccurs(s, c, j);
    }
  }

  /** For a single character the pieces are the only such list: splitting also undoes joining. */
  lemma {:induction false} SplitJoined(pieces: seq<string>, c: char)
    requires pieces != [] && forall k :: 0 <= k < |pieces| ==> c !in pieces[k]
    ensures Pieces(Joined(pieces, [c]), [c]) == pieces
  {
    hide FindFrom, Pieces, OccursAt;
    var s, head := Joined(pieces, [c]), pieces[0];
    PiecesUnfold(s, [c]);
    if |pieces| == 1 {
      FindChar(head, c, []);
      assert pieces == [head];
    } else {
      var tail := Joined(pieces[1..], [c]);
      SplitJoined(pieces[1..], c);
      FindChar(head, c, tail);
      assert s[..|head|] == head && s[|head| + 1..] == tail;
      assert pieces == [head] + pieces[1..];
    }
  }
}
