/**
 What str() of a list is: the bracketed text, by recursion over the nested list, and the arena
 room that making it takes.
 */
module Rendering {
  import opened Bits
  import opened Bytes
  import opened Decimals
  import opened Strings
  import D = Duckbox

  // ---- What a duck looks like ----

  // The type of a word, computed from its fields.
  function TagOf(w: Word): (t: D.Tag)
    ensures t == D.TypeOf(w)
  {
    D.TypeCodeByFields(w);
    D.TagAt(D.CodeOfFields(w / TWO63, w / D.TWO52 % 0x800, w % D.TWO52))
  }

  function Decimal(i: int): string {
    if i < 0 then "-" + Digits(-i) else Digits(i)
  }

  // The value of an INT word.
  function IntOf(w: Word): (i: int)
    ensures i == D.UnpackI(w)
  {
    D.UnpackIFields(w);
    if w / TWO50 % 2 == 1 then -(w % TWO50) else w % TWO50
  }

  // What snprintf leaves in the buffer of 64 for everything but strings and lists; `g` is the
  // rendering of doubles by "%g", which is never that long.
  function ScalarText(tag: D.Tag, g: Word -> string, w: Word): string {
    match tag
    case FLOAT => g(w)
    case INT => Decimal(IntOf(w))
    case UINT => Digits(w % D.TWO51)
    case BOOL => if w % 2 != 0 then "True" else "False"
    case NONE => "None"
    case NAN => "NaN"
    case BIGINT => "<bigint>"
    case COMPLEX => "<complex>"
    case STRBYTES => "<bytes>"
    case LISTBYTES => "<list>"
    case TUPLE => "<tuple>"
    case SET => "<set>"
    case DICT => "<dict>"
    case DEQUE => "<deque>"
    case FUNC => "<function>"
    case CLOSURE => "<function>"
    case OBJ => "<object>"
    case _ => "<unknown>"
  }

  // A negative number is a minus and the numeral of its opposite, any other its numeral alone.
  lemma DecimalReads(i: int)
    ensures var s := Decimal(i);
            if i < 0 then
              |s| > 1 && s[0] == '-' && IsNumeral(s[1..]) && NumberOf(s[1..]) == -i && s[1] != '0'
            else IsNumeral(s) && NumberOf(s) == i && (s[0] == '0' ==> s == "0")
  {
    DigitsReadBack(if i < 0 then -i else i);
    if i < 0 {
      assert Decimal(i)[1..] == Digits(-i);
    } else if i == 0 {
      assert Digits(0) == "0";
    }
  }

  // No scalar text is cut off.
  lemma ScalarFits(tag: D.Tag, g: Word -> string, w: Word)
    requires |g(w)| < 64 && AreBytes(g(w))
    ensures |ScalarText(tag, g, w)| < 64 && AreBytes(ScalarText(tag, g, w))
  {
    NumberFits(IntOf(w));
    NumberFits(w % D.TWO51);
  }

  lemma NumberFits(i: int)
    requires -D.TWO51 < i < D.TWO51
    ensures |Decimal(i)| < 64 && AreBytes(Decimal(i)) && (i >= 0 ==> Decimal(i) == Digits(i))
  {
    var n := if i < 0 then -i else i;
    SixteenDigits();
    DigitsLength(n, 16, TenTo(16));
    DigitsAreBytes(n);
  }

  lemma {:induction false} DigitsAreBytes(n: nat)
    ensures AreBytes(Digits(n))
    decreases n
  {
    if n >= 10 {
      DigitsAreBytes(n / 10);
    }
  }

  lemma SixteenDigits()
    ensures TenTo(16) == 10_000_000_000_000_000
  {
    assert TenTo(8) == 100_000_000;
  }

  // ---- The text of a list ----

  // The lists and strings of a program, by the words that refer to them, with the function that
  // tells the type of a word.
  datatype World = World(lists: map<Word, seq<Word>>, texts: map<Word, string>, tag: Word -> D.Tag, g: Word -> string)

  // Every string and list inside a list is there, and lists are nested without a cycle: each
  // one ranks above the lists in it.
  ghost predicate Nested(w: World, rank: Word -> nat) {
    && (forall l {:trigger w.lists[l]} :: l in w.lists ==>
         forall i {:trigger w.lists[l][i]} :: 0 <= i < |w.lists[l]| ==>
          var e := w.lists[l][i]; Known(w, e) && (w.tag(e) == D.LIST ==> rank(e) < rank(l)))
    && (forall e :: |w.g(e)| < 64 && AreBytes(w.g(e)))
  }

  ghost predicate Known(w: World, e: Word) {
    && (w.tag(e) == D.STR ==> e in w.texts)
    && (w.tag(e) == D.LIST ==> e in w.lists)
  }

  ghost function Text(w: World, rank: Word -> nat, e: Word): string
    requires Nested(w, rank) && Known(w, e)
    decreases if w.tag(e) == D.LIST then rank(e) + 1 else 0, 0
  {
    match w.tag(e)
    case STR => w.texts[e]
    case LIST => "[" + Join(Parts(w, rank, e, |w.lists[e]|)) + "]"
    case _ => ScalarText(w.tag(e), w.g, e)
  }

  // ---- What that is, word by word ----

  // Integers are written so that they read back, without a sign or zeros that are not needed.
  lemma TextOfInteger(w: World, rank: Word -> nat, i: int)
    requires Nested(w, rank) && w.tag == TagOf && Canonical(i)
    ensures Known(w, D.PackI(i))
    ensures var s := Text(w, rank, D.PackI(i));
            if i < 0 then
              |s| > 1 && s[0] == '-' && IsNumeral(s[1..]) && NumberOf(s[1..]) == -i && s[1] != '0'
            else IsNumeral(s) && NumberOf(s) == i && (s[0] == '0' ==> s == "0")
  {
    D.UnpackPackI(i);
    DecimalReads(i);
  }

  lemma TextOfUnsigned(w: World, rank: Word -> nat, u: Word)
    requires Nested(w, rank) && w.tag == TagOf
    ensures Known(w, D.PackU(u))
    ensures var s := Text(w, rank, D.PackU(u));
            IsNumeral(s) && NumberOf(s) == u % 0x8_0000_0000_0000 && (s[0] == '0' ==> s == "0")
  {
    D.UnpackPackU(u);
    D.UMask(D.PackU(u));
    DecimalReads(u % D.TWO51);
  }

  lemma TextOfConstants(w: World, rank: Word -> nat, b: bool)
    requires Nested(w, rank) && w.tag == TagOf
    ensures Known(w, D.PackB(b)) && Text(w, rank, D.PackB(b)) == if b then "True" else "False"
    ensures Known(w, D.PackN()) && Text(w, rank, D.PackN()) == "None"
  {
    D.UnpackPackB(b);
    D.LowFields(D.PackB(b));
    D.PackNIsNone();
  }

  lemma TextOfDouble(w: World, rank: Word -> nat, d: Word)
    requires Nested(w, rank) && w.tag == TagOf
    ensures D.TypeOf(d) == D.FLOAT ==> Known(w, d) && Text(w, rank, d) == w.g(d)
    ensures D.TypeOf(d) == D.NAN ==> Known(w, d) && Text(w, rank, d) == "NaN"
  {
  }

  // A string is itself, and quoted where it is in a list; what else is in an arena has a fixed text.
  lemma TextOfReference(w: World, rank: Word -> nat, t: D.Tag, id: D.UInt16, offset: D.UInt32)
    requires Nested(w, rank) && w.tag == TagOf && D.IsRef(t) && Known(w, D.PackRef(t, id, offset)) && t != D.LIST
    ensures var r := D.PackRef(t, id, offset);
            && (t == D.STR ==> r in w.texts && Text(w, rank, r) == w.texts[r])
            && (t != D.STR ==>
                  Text(w, rank, r) == match t
                    case BIGINT => "<bigint>" case COMPLEX => "<complex>" case STRBYTES => "<bytes>"
                    case LISTBYTES => "<list>" case TUPLE => "<tuple>" case SET => "<set>" case DICT => "<dict>"
                    case DEQUE => "<deque>" case OBJ => "<object>" case _ => "<function>")
  {
    D.RefRoundTrip(t, id, offset);
  }

  // A list of one more element: a comma and a space behind the others, and the element, in quotes if
  // it is a string.
  lemma TextOfList(w: World, rank: Word -> nat, l: Word)
    requires Nested(w, rank) && l in w.lists && w.tag(l) == D.LIST
    ensures Text(w, rank, l) == "[" + TextOfFirst(w, rank, l, |w.lists[l]|) + "]"
  {
  }

  // What is between the brackets, up to element n.
  ghost function TextOfFirst(w: World, rank: Word -> nat, l: Word, n: nat): string
    requires Nested(w, rank) && l in w.lists && n <= |w.lists[l]|
  {
    Join(Parts(w, rank, l, n))
  }

  lemma TextOfOneMore(w: World, rank: Word -> nat, l: Word, n: nat)
    requires Nested(w, rank) && l in w.lists && n < |w.lists[l]|
    ensures TextOfFirst(w, rank, l, 0) == ""
    ensures var e := w.lists[l][n];
            var s := if w.tag(e) == D.STR then "'" + Text(w, rank, e) + "'" else Text(w, rank, e);
            TextOfFirst(w, rank, l, n + 1) == if n == 0 then s else TextOfFirst(w, rank, l, n) + ", " + s
  {
    var e := w.lists[l][n];
    var parts := Parts(w, rank, l, n);
    assert Parts(w, rank, l, n + 1) == parts + [Quote(w.tag(e) == D.STR, Text(w, rank, e))];
    JoinMore(parts, Quote(w.tag(e) == D.STR, Text(w, rank, e)));
  }

  lemma {:induction false} JoinMore(parts: seq<string>, p: string)
    ensures Join(parts + [p]) == if parts == [] then p else Join(parts) + ", " + p
    decreases |parts|
  {
    if |parts| == 1 {
      assert (parts + [p])[1..] == [p];
    } else if |parts| > 1 {
      JoinMore(parts[1..], p);
      assert (parts + [p])[1..] == parts[1..] + [p];
    }
  }

  // The texts of the first n elements, strings in quotes.
  ghost function Parts(w: World, rank: Word -> nat, l: Word, n: nat): (r: seq<string>)
    requires Nested(w, rank) && l in w.lists && n <= |w.lists[l]|
    ensures |r| == n
    decreases rank(l), n + 1
  {
    if n == 0 then []
    else
      var e := w.lists[l][n - 1];
      Parts(w, rank, l, n - 1) + [Quote(w.tag(e) == D.STR, Text(w, rank, e))]
  }

  function Quote(quoted: bool, text: string): string {
    if quoted then "'" + text + "'" else text
  }

  function Join(parts: seq<string>): string {
    if parts == [] then "" else if |parts| == 1 then parts[0] else parts[0] + ", " + Join(parts[1..])
  }

  // The units rendering takes: nothing for a string, which is passed on.
  ghost function Need(w: World, rank: Word -> nat, e: Word): int
    requires Nested(w, rank) && Known(w, e)
    decreases if w.tag(e) == D.LIST then rank(e) + 1 else 0, 0
  {
    match w.tag(e)
    case STR => 0
    case LIST => NeedOfFirst(w, rank, e, |w.lists[e]|) + Room(|Text(w, rank, e)|)
    case _ => Room(|ScalarText(w.tag(e), w.g, e)|)
  }

  ghost function NeedOfFirst(w: World, rank: Word -> nat, l: Word, n: nat): int
    requires Nested(w, rank) && l in w.lists && n <= |w.lists[l]|
    decreases rank(l), n + 1
  {
    if n == 0 then 0 else NeedOfFirst(w, rank, l, n - 1) + Need(w, rank, w.lists[l][n - 1])
  }

  lemma {:induction false} NeedRises(w: World, rank: Word -> nat, l: Word, m: nat, n: nat)
    requires Nested(w, rank) && l in w.lists && m <= n <= |w.lists[l]|
    ensures NeedOfFirst(w, rank, l, m) <= NeedOfFirst(w, rank, l, n)
    decreases rank(l), n + 1
  {
    if m < n {
      NeedRises(w, rank, l, m, n - 1);
      NeedPositive(w, rank, w.lists[l][n - 1]);
    }
  }

  lemma {:induction false} NeedPositive(w: World, rank: Word -> nat, e: Word)
    requires Nested(w, rank) && Known(w, e)
    ensures Need(w, rank, e) >= 0
    decreases if w.tag(e) == D.LIST then rank(e) + 1 else 0, 0
  {
    if w.tag(e) == D.LIST {
      NeedRises(w, rank, e, 0, |w.lists[e]|);
      RoomCovers(|Text(w, rank, e)|);
    } else {
      RoomCovers(|ScalarText(w.tag(e), w.g, e)|);
    }
  }

  // How many words are handed out after one more allocation, as the code goes: more than 2^32
  // stands for the panic, and WRAPPED for an allocation in a full arena.
  const WRAPPED: int := -1

  function Allocated(top: int, size: int): int {
    if top == TWO32 then WRAPPED else if top < 0 || top > TWO32 then top else top + size
  }

  ghost function TopAfter(w: World, rank: Word -> nat, e: Word, top: int): int
    requires Nested(w, rank) && Known(w, e)
    decreases if w.tag(e) == D.LIST then rank(e) + 1 else 0, 0
  {
    match w.tag(e)
    case STR => top
    case LIST => Allocated(TopAfterFirst(w, rank, e, |w.lists[e]|, top), Room(|Text(w, rank, e)|))
    case _ => Allocated(top, Room(|ScalarText(w.tag(e), w.g, e)|))
  }

  ghost function TopAfterFirst(w: World, rank: Word -> nat, l: Word, n: nat, top: int): int
    requires Nested(w, rank) && l in w.lists && n <= |w.lists[l]|
    decreases rank(l), n + 1
  {
    if n == 0 then top else TopAfter(w, rank, w.lists[l][n - 1], TopAfterFirst(w, rank, l, n - 1, top))
  }

  predicate Failed(top: int) {
    top < 0 || top > TWO32
  }

  // What has failed stays failed.
  lemma {:induction false} FailureStays(w: World, rank: Word -> nat, e: Word, top: int)
    requires Nested(w, rank) && Known(w, e) && Failed(top)
    ensures TopAfter(w, rank, e, top) == top
    decreases if w.tag(e) == D.LIST then rank(e) + 1 else 0, 0
  {
    if w.tag(e) == D.LIST {
      FailureStaysFirst(w, rank, e, 0, |w.lists[e]|, top);
    }
  }

  lemma {:induction false} FailureStaysFirst(w: World, rank: Word -> nat, l: Word, m: nat, n: nat, top: int)
    requires Nested(w, rank) && l in w.lists && m <= n <= |w.lists[l]| && Failed(TopAfterFirst(w, rank, l, m, top))
    ensures TopAfterFirst(w, rank, l, n, top) == TopAfterFirst(w, rank, l, m, top)
    decreases rank(l), n + 1
  {
    if m < n {
      FailureStaysFirst(w, rank, l, m, n - 1, top);
      FailureStays(w, rank, w.lists[l][n - 1], TopAfterFirst(w, rank, l, n - 1, top));
    }
  }

  // Rendering succeeds exactly when there is room for all the strings it makes.
  lemma {:induction false} NeedIsExact(w: World, rank: Word -> nat, e: Word, top: int)
    requires Nested(w, rank) && Known(w, e) && 0 <= top <= TWO32
    ensures var t := TopAfter(w, rank, e, top);
            (!Failed(t) <==> top + Need(w, rank, e) <= TWO32) && (!Failed(t) ==> t == top + Need(w, rank, e))
    decreases if w.tag(e) == D.LIST then rank(e) + 1 else 0, 0
  {
    if w.tag(e) == D.LIST {
      NeedOfFirstIsExact(w, rank, e, |w.lists[e]|, top);
      RoomCovers(|Text(w, rank, e)|);
    } else {
      RoomCovers(|ScalarText(w.tag(e), w.g, e)|);
    }
  }

  lemma {:induction false} NeedOfFirstIsExact(w: World, rank: Word -> nat, l: Word, n: nat, top: int)
    requires Nested(w, rank) && l in w.lists && n <= |w.lists[l]| && 0 <= top <= TWO32
    ensures var t, need := TopAfterFirst(w, rank, l, n, top), NeedOfFirst(w, rank, l, n);
            (!Failed(t) <==> top + need <= TWO32) && (!Failed(t) ==> t == top + need)
    decreases rank(l), n + 1
  {
    if n > 0 {
      var t, e := TopAfterFirst(w, rank, l, n - 1, top), w.lists[l][n - 1];
      NeedOfFirstIsExact(w, rank, l, n - 1, top);
      NeedPositive(w, rank, e);
      if Failed(t) {
        FailureStays(w, rank, e, t);
      } else {
        NeedIsExact(w, rank, e, t);
      }
    }
  }

  // The text does not depend on the ranks that show the nesting to be acyclic.
  lemma {:induction false} TextByNesting(w: World, rank: Word -> nat, rank': Word -> nat, e: Word)
    requires Nested(w, rank) && Nested(w, rank') && Known(w, e)
    ensures Text(w, rank, e) == Text(w, rank', e)
    decreases if w.tag(e) == D.LIST then rank(e) + 1 else 0, 0
  {
    if w.tag(e) == D.LIST {
      PartsByNesting(w, rank, rank', e, |w.lists[e]|);
    }
  }

  lemma {:induction false} PartsByNesting(w: World, rank: Word -> nat, rank': Word -> nat, l: Word, n: nat)
    requires Nested(w, rank) && Nested(w, rank') && l in w.lists && n <= |w.lists[l]|
    ensures Parts(w, rank, l, n) == Parts(w, rank', l, n)
    decreases rank(l), n + 1
  {
    if n > 0 {
      PartsByNesting(w, rank, rank', l, n - 1);
      TextByNesting(w, rank, rank', w.lists[l][n - 1]);
    }
  }

  // The first i parts as the second pass writes them: a separator behind each but the last of all.
  function Written(parts: seq<string>, i: nat): string
    requires i <= |parts|
  {
    if i == 0 then "" else Written(parts, i - 1) + parts[i - 1] + if i < |parts| then ", " else ""
  }

  lemma {:induction false} WrittenIsJoin(parts: seq<string>)
    ensures Written(parts, |parts|) == Join(parts)
    decreases |parts|
  {
    if |parts| == 1 {
      assert Written(parts, 0) == "";
    } else if |parts| > 1 {
      WrittenIsJoin(parts[1..]);
      WrittenTail(parts, |parts| - 1);
    }
  }

  lemma {:induction false} WrittenTail(parts: seq<string>, i: nat)
    requires |parts| > 1 && i < |parts|
    ensures Written(parts, i + 1) == parts[0] + ", " + Written(parts[1..], i)
    decreases i
  {
    if i == 0 {
      assert Written(parts, 0) == "";
    } else {
      WrittenTail(parts, i - 1);
      assert parts[1..][i - 1] == parts[i];
      var sep := if i + 1 < |parts| then ", " else "";
      assert Written(parts, i + 1) == Written(parts, i) + parts[i] + sep;
      assert Written(parts[1..], i) == Written(parts[1..], i - 1) + parts[i] + sep;
    }
  }

  lemma WrittenNext(parts: seq<string>, i: nat)
    requires i < |parts|
    ensures "[" + Written(parts, i) + parts[i] + (if i < |parts| - 1 then ", " else "") == "[" + Written(parts, i + 1)
  {
  }

  // Later parts only add to what is written.
  lemma {:induction false} WrittenGrows(parts: seq<string>, i: nat, n: nat)
    requires i <= n <= |parts|
    ensures |Written(parts, i)| <= |Written(parts, n)|
    decreases n
  {
    if i < n {
      WrittenGrows(parts, i, n - 1);
    }
  }
}
