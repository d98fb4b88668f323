/** The byte-class automaton that looks for one path fragment.

    A fragment is compiled once, row by row, into a table with one column per
    distinct byte of the pattern.  The table is then used to scan text that
    arrives in pieces: the state carried from one piece to the next is a single
    number.  The reference definitions below (`Suffix`, `Longest`, `Occurs`)
    mention neither the table nor the pieces. */
module PathFragment {
  import opened Bytes

  // The first k bytes of p are the last k bytes of t.
  ghost predicate Suffix(p: Bytes, k: int, t: Bytes) {
    0 <= k <= |p| && k <= |t| && p[..k] == t[|t| - k..]
  }

  ghost function LongestUpTo(p: Bytes, t: Bytes, k: nat): nat
    requires k <= |p| && k <= |t|
  {
    if k == 0 || Suffix(p, k, t) then k else LongestUpTo(p, t, k - 1)
  }

  // The length of the longest prefix of p that is a suffix of t.
  ghost function Longest(p: Bytes, t: Bytes): nat {
    LongestUpTo(p, t, if |p| <= |t| then |p| else |t|)
  }

  lemma {:induction false} LongestUpToSpec(p: Bytes, t: Bytes, k: nat)
    requires k <= |p| && k <= |t|
    ensures LongestUpTo(p, t, k) <= k && Suffix(p, LongestUpTo(p, t, k), t)
    ensures forall j :: Suffix(p, j, t) && j <= k ==> j <= LongestUpTo(p, t, k)
  {
    if k != 0 && !Suffix(p, k, t) {
      LongestUpToSpec(p, t, k - 1);
    }
  }

  lemma LongestSpec(p: Bytes, t: Bytes)
    ensures Suffix(p, Longest(p, t), t)
    ensures forall j :: Suffix(p, j, t) ==> j <= Longest(p, t)
  {
    LongestUpToSpec(p, t, if |p| <= |t| then |p| else |t|);
  }

  // p is a factor of t.
  ghost predicate Occurs(p: Bytes, t: Bytes) {
    exists i :: OccursAt(p, t, i)
  }

  ghost predicate OccursAt(p: Bytes, t: Bytes, i: int) {
    0 <= i <= |t| - |p| && t[i..i + |p|] == p
  }

  lemma LongestIs(p: Bytes, t: Bytes, k: nat)
    requires Suffix(p, k, t)
    requires forall j :: Suffix(p, j, t) ==> j <= k
    ensures Longest(p, t) == k
  {
    LongestSpec(p, t);
  }

  lemma SuffixSnoc(p: Bytes, j: nat, t: Bytes, c: Byte)
    ensures Suffix(p, j + 1, t + [c]) <==> j < |p| && Suffix(p, j, t) && p[j] == c
  {
    if j < |p| && j <= |t| {
      assert p[..j + 1] == p[..j] + [p[j]];
      assert (t + [c])[|t| - j..] == t[|t| - j..] + [c];
      if p[..j] + [p[j]] == t[|t| - j..] + [c] {
        assert p[..j] == (p[..j] + [p[j]])[..j] == (t[|t| - j..] + [c])[..j] == t[|t| - j..];
      }
    }
  }

  // A prefix of p that fits inside the suffix p[..q] of t is a suffix of t
  // exactly when it is a suffix of p[..q].
  lemma SuffixChain(p: Bytes, j: nat, q: nat, t: Bytes)
    requires Suffix(p, q, t) && j <= q
    ensures Suffix(p, j, t) <==> Suffix(p, j, p[..q])
  {
    assert p[..q][q - j..] == t[|t| - q..][q - j..] == t[|t| - j..];
  }

  // One byte more: the new state depends on the old state only.
  lemma StateSuffices(p: Bytes, t: Bytes, c: Byte)
    requires Longest(p, t) < |p|
    ensures Longest(p, t + [c]) == Longest(p, p[..Longest(p, t)] + [c])
  {
    hide Longest;
    LongestSpec(p, t);
    var q := Longest(p, t);
    var next := Longest(p, p[..q] + [c]);
    LongestSpec(p, p[..q] + [c]);
    forall j | Suffix(p, j, t + [c]) ensures j <= next {
      if j > 0 {
        SuffixSnoc(p, j - 1, t, c);
        SuffixChain(p, j - 1, q, t);
        SuffixSnoc(p, j - 1, p[..q], c);
      }
    }
    if next > 0 {
      SuffixSnoc(p, next - 1, p[..q], c);
      SuffixChain(p, next - 1, q, t);
      SuffixSnoc(p, next - 1, t, c);
    }
    LongestIs(p, t + [c], next);
  }

  lemma OccursSnoc(p: Bytes, t: Bytes, c: Byte)
    requires p != []
    ensures Occurs(p, t + [c]) <==> Occurs(p, t) || Longest(p, t + [c]) == |p|
  {
    var u := t + [c];
    LongestSpec(p, u);
    if Occurs(p, t) {
      OccursPrefix(p, t, [c]);
    }
    if Longest(p, u) == |p| {
      assert OccursAt(p, u, |u| - |p|);
    }
    if Occurs(p, u) && Longest(p, u) != |p| {
      var i :| OccursAt(p, u, i);
      assert !Suffix(p, |p|, u) && p[..|p|] == p;
      assert i + |p| < |u|;
      assert u[i..i + |p|] == t[i..i + |p|];
      assert OccursAt(p, t, i);
    }
  }

  lemma OccursPrefix(p: Bytes, t: Bytes, more: Bytes)
    requires Occurs(p, t)
    ensures Occurs(p, t + more)
  {
    var i :| OccursAt(p, t, i);
    assert (t + more)[i..i + |p|] == t[i..i + |p|];
    assert OccursAt(p, t + more, i);
  }

  lemma AbsentByteResets(p: Bytes, t: Bytes, c: Byte)
    requires c !in p
    ensures Longest(p, t + [c]) == 0
  {
    var k := Longest(p, t + [c]);
    LongestSpec(p, t + [c]);
    if k > 0 {
      SuffixSnoc(p, k - 1, t, c);
    }
  }

  /** A published fragment: the pattern and its compiled table, one row per state. */
  datatype Fragment = Fragment(text: Bytes, alphabet: seq<nat>, alphabetSize: nat, transitions: seq<seq<nat>>)

  // Each byte of the pattern has its own class, from 1 up; every other byte has class 0.
  ghost predicate Classes(text: Bytes, alphabet: seq<nat>, size: nat) {
    && |alphabet| == 256
    && (forall b: Byte :: alphabet[b] <= size && (alphabet[b] != 0 <==> b in text))
    && (forall a: Byte, b: Byte :: alphabet[a] == alphabet[b] && alphabet[a] != 0 ==> a == b)
  }

  // Row q of the table holds the next state for every byte of the pattern.
  ghost predicate Row(text: Bytes, alphabet: seq<nat>, size: nat, row: seq<nat>, q: nat)
    requires Classes(text, alphabet, size) && q < |text|
  {
    |row| == size && forall b: Byte :: b in text ==> row[alphabet[b] - 1] == Longest(text, text[..q] + [b])
  }

  ghost predicate Compiled(f: Fragment) {
    && Classes(f.text, f.alphabet, f.alphabetSize)
    && |f.transitions| == |f.text|
    && forall q :: 0 <= q < |f.text| ==> Row(f.text, f.alphabet, f.alphabetSize, f.transitions[q], q)
  }

  // Distinct numbers from 1 to n: at most n of them.
  lemma {:induction false} AtMost(present: set<int>, n: nat)
    requires forall b :: b in present ==> 1 <= b <= n
    ensures |present| <= n
  {
    if n == 0 {
      assert forall b :: b !in present;
    } else {
      AtMost(present - {n}, n - 1);
      assert present <= (present - {n}) + {n};
    }
  }

  /** Number the distinct bytes of a NUL-free pattern in order of appearance.
      The class of a byte is stored in eight bits. */
  method NumberBytes(text: Bytes) returns (alphabet: seq<nat>, size: nat)
    requires 0 !in text
    ensures Classes(text, alphabet, size)
    ensures size <= 255 && (text != [] ==> size > 0)
  {
    var classes := new nat[256](_ => 0);
    size := 0;
    ghost var seen: set<int> := {};
    for j := 0 to |text|
      invariant forall b: Byte :: b as int in seen <==> b in text[..j]
      invariant forall b :: b in seen ==> 1 <= b < 256
      invariant size == |seen| <= 255
      invariant forall b: Byte :: classes[b] <= size && (classes[b] != 0 <==> b as int in seen)
      invariant forall a: Byte, b: Byte :: classes[a] == classes[b] && classes[a] != 0 ==> a == b
    {
      var byte := text[j];
      assert text[..j + 1] == text[..j] + [byte];
      if classes[byte] == 0 {
        AtMost(seen + {byte as int}, 255);
        size := size + 1;
        classes[byte] := size % 256;
      }
      seen := seen + {byte as int};
    }
    assert text[..|text|] == text;
    alphabet := classes[..];
    if text != [] {
      assert text[0] in text;
    }
  }

  // The next state from state i, in terms of the row of the shadow state.
  lemma BorderStep(text: Bytes, i: nat, shadow: nat, b: Byte)
    requires 1 <= i < |text| && shadow == Longest(text, text[1..i])
    ensures shadow < i
    ensures Longest(text, text[..i] + [b]) == if b == text[i] then i + 1 else Longest(text, text[..shadow] + [b])
    ensures Longest(text, text[1..i + 1]) == Longest(text, text[..shadow] + [text[i]])
  {
    hide Longest;
    var border := text[1..i];
    LongestSpec(text, border);
    assert text[1..i + 1] == border + [text[i]];
    StateSuffices(text, border, text[i]);
    StateSuffices(text, border, b);
    if b == text[i] {
      assert text[..i] + [b] == text[..i + 1];
      assert Suffix(text, i + 1, text[..i + 1]);
      LongestIs(text, text[..i + 1], i + 1);
    } else {
      DropFirst(text, i, b);
    }
  }

  lemma BorderShrinks(text: Bytes, i: nat)
    requires i < |text|
    ensures Longest(text, text[1..i + 1]) <= i
  {
    LongestSpec(text, text[1..i + 1]);
  }

  lemma DropFirst(text: Bytes, i: nat, b: Byte)
    requires 1 <= i < |text| && b != text[i]
    ensures Longest(text, text[..i] + [b]) == Longest(text, text[1..i] + [b])
  {
    var whole, tail := text[..i] + [b], text[1..i] + [b];
    LongestSpec(text, tail);
    assert whole[1..] == tail;
    forall j | 0 <= j <= i ensures Suffix(text, j, whole) <==> Suffix(text, j, tail) {
      assert whole[|whole| - j..] == whole[1..][i - j..];
    }
    assert !Suffix(text, i + 1, whole) by {
      assert text[..i + 1][i] != whole[0..][i];
    }
    LongestIs(text, whole, Longest(text, tail));
  }

  lemma FirstStep(text: Bytes, b: Byte)
    requires text != []
    ensures Longest(text, text[..0] + [b]) == if b == text[0] then 1 else 0
  {
    hide Longest;
    assert text[..0] == [];
    LongestSpec(text, [] + [b]);
    SuffixSnoc(text, 0, [], b);
    assert Suffix(text, 0, []);
  }

  /** Fill the transition table of a nonempty pattern row by row.  `shadow` is
      the length of the longest proper border of the prefix already compiled. */
  method Compile(text: Bytes) returns (f: Fragment)
    requires 0 !in text
    ensures f.text == text && Compiled(f)
  {
    hide Longest;
    hide Row;
    var alphabet, columns := NumberBytes(text);
    if text == [] {
      return Fragment(text, alphabet, columns, []);
    }
    var transitions := new seq<nat>[|text|](_ => []);
    transitions[0] := FirstRow(text, alphabet, columns);
    var shadow := 0;
    EmptyBorder(text);
    for i := 1 to |text|
      invariant shadow == Longest(text, text[1..i]) && shadow < i
      invariant forall q :: 0 <= q < i ==> Row(text, alphabet, columns, transitions[q], q)
    {
      transitions[i] := RowFromShadow(text, alphabet, columns, i, shadow, transitions[shadow]);
      BorderStep(text, i, shadow, text[i]);
      BorderShrinks(text, i);
      RowAt(text, alphabet, columns, transitions[shadow], shadow, text[i]);
      shadow := transitions[shadow][alphabet[text[i]] - 1];
    }
    f := Fragment(text, alphabet, columns, transitions[..]);
  }

  lemma EmptyBorder(text: Bytes)
    requires text != []
    ensures Longest(text, text[1..1]) == 0
  {
  }

  lemma RowAt(text: Bytes, alphabet: seq<nat>, size: nat, row: seq<nat>, q: nat, b: Byte)
    requires Classes(text, alphabet, size) && q < |text| && b in text && Row(text, alphabet, size, row, q)
    ensures |row| == size && row[alphabet[b] - 1] == Longest(text, text[..q] + [b])
  {
  }

  method FirstRow(text: Bytes, alphabet: seq<nat>, columns: nat) returns (row: seq<nat>)
    requires Classes(text, alphabet, columns) && text != []
    ensures Row(text, alphabet, columns, row, 0)
  {
    hide Longest;
    var cells := new nat[columns];
    for column := 0 to columns
      invariant forall k :: 0 <= k < column ==> cells[k] == 0
    {
      cells[column] := 0;
    }
    cells[alphabet[text[0]] - 1] := 1;
    row := cells[..];
    forall b: Byte | b in text ensures row[alphabet[b] - 1] == Longest(text, text[..0] + [b]) {
      FirstStep(text, b);
    }
  }

  method RowFromShadow(text: Bytes, alphabet: seq<nat>, columns: nat, i: nat, shadow: nat, shadowRow: seq<nat>)
    returns (row: seq<nat>)
    requires Classes(text, alphabet, columns) && 1 <= i < |text|
    requires shadow == Longest(text, text[1..i]) && shadow < i
    requires Row(text, alphabet, columns, shadowRow, shadow)
    ensures Row(text, alphabet, columns, row, i)
  {
    hide Longest;
    var cells := new nat[columns];
    for column := 0 to columns
      invariant forall k :: 0 <= k < column ==> cells[k] == shadowRow[k]
    {
      cells[column] := shadowRow[column];
    }
    cells[alphabet[text[i]] - 1] := i + 1;
    row := cells[..];
    forall b: Byte | b in text ensures row[alphabet[b] - 1] == Longest(text, text[..i] + [b]) {
      BorderStep(text, i, shadow, b);
    }
  }

  // What a scan has to remember about the text read so far, as long as nothing matched.
  ghost predicate Unmatched(text: Bytes, prior: Bytes, state: nat) {
    if text == [] then state == 0 else !Occurs(text, prior) && state == Longest(text, prior)
  }

  lemma UnmatchedBelowLength(text: Bytes, prior: Bytes, state: nat)
    requires text != [] && Unmatched(text, prior, state)
    ensures state < |text|
  {
    LongestSpec(text, prior);
    if state == |text| {
      assert text[..state] == text;
      assert OccursAt(text, prior, |prior| - |text|);
    }
  }

  /** Continue a scan over one more piece of text.  `prior` is everything the
      scan has read before; it is needed only to say what the state means. */
  method Advance(f: Fragment, input: Bytes, state: nat, ghost prior: Bytes) returns (hit: bool, matched: nat)
    requires Compiled(f) && Unmatched(f.text, prior, state)
    ensures hit <==> f.text != [] && Occurs(f.text, prior + input)
    ensures !hit ==> Unmatched(f.text, prior + input, matched)
    ensures hit ==> matched == |f.text|
  {
    matched := state;
    if |f.text| == 0 {
      return false, state;
    }
    TakeAll(prior, input, 0);
    for i := 0 to |input|
      invariant Unmatched(f.text, prior + input[..i], matched)
    {
      ghost var read := prior + input[..i];
      TakeSnoc(prior, input, i);
      UnmatchedBelowLength(f.text, read, matched);
      StateSuffices(f.text, read, input[i]);
      OccursSnoc(f.text, read, input[i]);
      var class_ := f.alphabet[input[i]];
      if class_ != 0 {
        RowAt(f.text, f.alphabet, f.alphabetSize, f.transitions[matched], matched, input[i]);
        matched := f.transitions[matched][class_ - 1];
      } else {
        AbsentByteResets(f.text, read, input[i]);
        matched := 0;
      }
      if matched == |f.text| {
        TakeAll(prior, input, i + 1);
        OccursPrefix(f.text, prior + input[..i + 1], input[i + 1..]);
        return true, matched;
      }
    }
    hit := false;
  }

  /** Feed text in pieces and stop at the first match, as the path index does
      with a directory followed by an operand: where the cuts fall is irrelevant. */
  method AdvanceAll(f: Fragment, chunks: seq<Bytes>) returns (hit: bool)
    requires Compiled(f)
    ensures hit <==> f.text != [] && Occurs(f.text, Concat(chunks))
  {
    var state := 0;
    hit := false;
    EmptyText(f.text);
    var i := 0;
    while i < |chunks|
      invariant 0 <= i <= |chunks|
      invariant Unmatched(f.text, Concat(chunks[..i]), state)
    {
      ConcatSnoc(chunks, i);
      hit, state := Advance(f, chunks[i], state, Concat(chunks[..i]));
      i := i + 1;
      if hit {
        ConcatPrefix(chunks, i);
        ghost var read, whole := Concat(chunks[..i]), Concat(chunks);
        assert whole == read + whole[|read|..];
        OccursPrefix(f.text, read, whole[|read|..]);
        return;
      }
    }
    assert chunks[..|chunks|] == chunks;
    hit := false;
  }

  lemma EmptyText(text: Bytes)
    ensures Unmatched(text, [], 0)
  {
    if text != [] {
      assert forall i :: !OccursAt(text, [], i);
    }
  }

  lemma {:induction false} ConcatPrefix(chunks: seq<Bytes>, i: nat)
    requires i <= |chunks|
    ensures Concat(chunks[..i]) <= Concat(chunks)
    decreases |chunks| - i
  {
    if i == |chunks| {
      assert chunks[..i] == chunks;
    } else {
      ConcatSnoc(chunks, i);
      ConcatPrefix(chunks, i + 1);
    }
  }
}
