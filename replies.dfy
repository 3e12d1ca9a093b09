/** The three reply parsers of `LineUs`: the greeting (`get_hello_string`), the `M122`
    info reply (`get_info`) and the `M20` file listing (`list_lineus_files`).
    Each splits the decoded reply into shell words, checks a sentinel first word and
    then cuts the remaining words on `:`, `;` and `-`. */
module Replies {
  import opened Bytes
  import opened Text
  import opened Options

  /** A reply the parsers can read: ASCII text in which `shlex.split` sees no quoting. */
  predicate Plain(raw: seq<Byte>) {
    AsciiBytes(raw) && Unquoted(Decode(raw))
  }

  /** `shlex.split(raw.decode('utf-8'))`. */
  function Tokens(raw: seq<Byte>): seq<string>
    requires Plain(raw)
  {
    Words(Decode(raw))
  }

  /** The dictionary a loop of `d[key] = value` assignments builds: later keys overwrite. */
  function ToMap(ps: seq<(string, string)>): map<string, string> {
    if ps == [] then map[] else ToMap(ps[..|ps| - 1])[ps[|ps| - 1].0 := ps[|ps| - 1].1]
  }

  /** The keys of the dictionary are exactly the keys assigned. */
  lemma {:induction false} ToMapKeys(ps: seq<(string, string)>)
    ensures forall x :: x in ToMap(ps) <==> exists k :: 0 <= k < |ps| && ps[k].0 == x
  {
    if ps != [] {
      var n := |ps| - 1;
      ToMapKeys(ps[..n]);
      forall x ensures x in ToMap(ps) <==> exists k :: 0 <= k < |ps| && ps[k].0 == x {
        if x in ToMap(ps[..n]) {
          var k :| 0 <= k < n && ps[..n][k].0 == x;
          assert ps[k].0 == x;
        }
        if exists k :: 0 <= k < |ps| && ps[k].0 == x {
          var k :| 0 <= k < |ps| && ps[k].0 == x;
          if k < n {
            assert ps[..n][k].0 == x;
          }
        }
      }
    }
  }

  /** A key holds the value of its last assignment. */
  lemma {:induction false} ToMapLastWins(ps: seq<(string, string)>, i: nat)
    requires i < |ps|
    requires forall j :: i < j < |ps| ==> ps[j].0 != ps[i].0
    ensures ps[i].0 in ToMap(ps) && ToMap(ps)[ps[i].0] == ps[i].1
    decreases |ps|
  {
    var n := |ps| - 1;
    if i < n {
      ToMapLastWins(ps[..n], i);
    }
  }

  /** The image of a one-longer prefix is the image of the prefix and one more value. */
  lemma MapPrefixSnoc<A, B>(r1: seq<B>, r0: seq<B>, xs: seq<A>, i: nat, f: A --> B)
    requires i < |xs| && |r1| == i + 1 && |r0| == i && f.requires(xs[i])
    requires forall k :: 0 <= k < i + 1 ==> f.requires(xs[..i + 1][k]) && r1[k] == f(xs[..i + 1][k])
    requires forall k :: 0 <= k < i ==> f.requires(xs[..i][k]) && r0[k] == f(xs[..i][k])
    ensures r1 == r0 + [f(xs[i])]
  {
    forall k | 0 <= k < i + 1
      ensures r1[k] == (r0 + [f(xs[i])])[k]
    {
      assert xs[..i + 1][k] == xs[k];
      if k < i {
        assert xs[..i][k] == xs[k];
      }
    }
  }

  lemma ToMapSnoc(ps: seq<(string, string)>, p: (string, string))
    ensures ToMap(ps + [p]) == ToMap(ps)[p.0 := p.1]
  {
    assert (ps + [p])[..|ps|] == ps;
  }

  // ---------------------------------------------------------------- greeting

  /** The greeting's condition for `get_hello_string` not to raise: a first word, and
      when that word is `hello`, a `:` in every later word. */
  predicate HelloParsable(raw: seq<Byte>) {
    Plain(raw) && HelloWordsOk(Tokens(raw))
  }

  predicate HelloWordsOk(ws: seq<string>) {
    ws != [] && (ws[0] == "hello" ==> forall k :: 1 <= k < |ws| ==> ':' in ws[k])
  }

  /** `field.split(':', 1)`: the key before the first `:`, the value after it. */
  function HelloPair(field: string): (string, string)
    requires ':' in field
  {
    (Before(field, ':'), After(field, ':'))
  }

  function HelloPairs(fields: seq<string>): seq<(string, string)>
    requires forall k :: 0 <= k < |fields| ==> ':' in fields[k]
  {
    seq(|fields|, k requires 0 <= k < |fields| => HelloPair(fields[k]))
  }

  /** What `get_hello_string` returns for a connected session with greeting `raw`. */
  function HelloReply(raw: seq<Byte>): Option<map<string, string>>
    requires HelloParsable(raw)
  {
    HelloOf(Tokens(raw))
  }

  /** The greeting's dictionary, from its words: there is one exactly when the first
      word is `hello`, and its keys are the keys of the later words. */
  function HelloOf(ws: seq<string>): (r: Option<map<string, string>>)
    requires HelloWordsOk(ws)
    ensures r.Some? <==> ws[0] == "hello"
    ensures r.Some? ==> forall x :: x in r.value <==> x in FieldKeys(ws)
  {
    if ws[0] != "hello" then None
    else
      assert forall j :: 0 <= j < |ws| - 1 ==> HelloPairs(ws[1..])[j].0 == FieldKeys(ws)[j];
      ToMapKeySet(HelloPairs(ws[1..]), FieldKeys(ws));
      Some(ToMap(HelloPairs(ws[1..])))
  }

  /** The loop of `get_hello_string`: pop the sentinel, then one key per field. */
  method ParseHello(raw: seq<Byte>) returns (hello: Option<map<string, string>>)
    requires HelloParsable(raw)
    ensures hello == HelloReply(raw)
  {
    var fields := Words(Decode(raw));
    var first := fields[0];
    fields := fields[1..];
    if first != "hello" {
      return None;
    }
    var m: map<string, string> := map[];
    var i := 0;
    while i < |fields|
      invariant 0 <= i <= |fields|
      invariant m == ToMap(HelloPairs(fields[..i]))
    {
      var key := Before(fields[i], ':');
      var value := After(fields[i], ':');
      MapPrefixSnoc(HelloPairs(fields[..i + 1]), HelloPairs(fields[..i]), fields, i, HelloPair);
      ToMapSnoc(HelloPairs(fields[..i]), (key, value));
      m := m[key := value];
      i := i + 1;
    }
    assert fields[..i] == fields;
    return Some(m);
  }

  /** The greeting's dictionary: its keys are the text before the first `:` of each field,
      and a field `k:v` that is the last with key `k` gives `k` the value `v`, even when
      `v` holds further colons. */
  lemma HelloFields(ws: seq<string>, i: nat, k: string, v: string)
    requires HelloWordsOk(ws) && ws[0] == "hello"
    requires 1 <= i < |ws| && ws[i] == k + ":" + v && ':' !in k
    requires forall j :: i < j < |ws| ==> Before(ws[j], ':') != k
    ensures HelloOf(ws).Some?
    ensures forall x :: x in HelloOf(ws).value <==> exists j :: 1 <= j < |ws| && Before(ws[j], ':') == x
    ensures k in HelloOf(ws).value && HelloOf(ws).value[k] == v
  {
    var ps := HelloPairs(ws[1..]);
    assert forall j :: 0 <= j < |ps| ==> ps[j].0 == Before(ws[j + 1], ':');
    HelloPairOf(k, v);
    assert ps[i - 1] == (k, v);
    ToMapLastWins(ps, i - 1);
    ToMapKeys(ps);
    forall x ensures x in ToMap(ps) <==> exists j :: 1 <= j < |ws| && Before(ws[j], ':') == x {
      if x in ToMap(ps) {
        var j :| 0 <= j < |ps| && ps[j].0 == x;
        assert Before(ws[j + 1], ':') == x;
      }
      if exists j :: 1 <= j < |ws| && Before(ws[j], ':') == x {
        var j :| 1 <= j < |ws| && Before(ws[j], ':') == x;
        assert ps[j - 1].0 == x;
      }
    }
  }

  /** `split(':', 1)` of `k:v` is `(k, v)` whatever colons `v` holds. */
  lemma HelloPairOf(k: string, v: string)
    requires ':' !in k
    ensures ':' in k + ":" + v && HelloPair(k + ":" + v) == (k, v)
  {
    var f := k + ":" + v;
    assert f == k + [':'] + v;
    SplitCons(k, ':', v);
    assert f[|k|] == ':';
  }

  // ---------------------------------------------------------------- M122 info

  /** A field `get_info` can read without raising: a `mac` field, or one holding a `:`. */
  predicate InfoFieldOk(field: string) {
    Before(field, ':') == "mac" || ':' in field
  }

  /** The reply's condition for `get_info` not to raise. */
  predicate InfoParsable(raw: seq<Byte>) {
    Plain(raw) && InfoWordsOk(Tokens(raw))
  }

  predicate InfoWordsOk(ws: seq<string>) {
    ws != [] && (ws[0] == "ok" ==> forall k :: 1 <= k < |ws| ==> InfoFieldOk(ws[k]))
  }

  /** One field of the info reply: `mac` takes `field[5:]`, any other key the second
      `:`-separated segment. */
  function InfoPair(field: string): (string, string)
    requires InfoFieldOk(field)
  {
    SplitHasSecond(field, ':');
    if Before(field, ':') == "mac" then ("mac", Drop(field, 5))
    else (Before(field, ':'), Split(field, ':')[1])
  }

  function InfoPairs(fields: seq<string>): seq<(string, string)>
    requires forall k :: 0 <= k < |fields| ==> InfoFieldOk(fields[k])
  {
    seq(|fields|, k requires 0 <= k < |fields| => InfoPair(fields[k]))
  }

  /** What `get_info` returns for the reply `raw` to `M122`. */
  function InfoReply(raw: seq<Byte>): Option<map<string, string>>
    requires InfoParsable(raw)
  {
    InfoOf(Tokens(raw))
  }

  /** The info dictionary, from the reply's words: there is one exactly when the first
      word is `ok`, and its keys are the keys of the later words. */
  function InfoOf(ws: seq<string>): (r: Option<map<string, string>>)
    requires InfoWordsOk(ws)
    ensures r.Some? <==> ws[0] == "ok"
    ensures r.Some? ==> forall x :: x in r.value <==> x in FieldKeys(ws)
  {
    if ws[0] != "ok" then None
    else
      InfoPairsKeys(ws);
      ToMapKeySet(InfoPairs(ws[1..]), FieldKeys(ws));
      Some(ToMap(InfoPairs(ws[1..])))
  }

  /** The loop of `get_info`. */
  method ParseInfo(raw: seq<Byte>) returns (info: Option<map<string, string>>)
    requires InfoParsable(raw)
    ensures info == InfoReply(raw)
  {
    var fields := Words(Decode(raw));
    var first := fields[0];
    fields := fields[1..];
    if first != "ok" {
      return None;
    }
    var m: map<string, string> := map[];
    var i := 0;
    while i < |fields|
      invariant 0 <= i <= |fields|
      invariant m == ToMap(InfoPairs(fields[..i]))
    {
      var key, value := InfoField(fields[i]);
      InfoPairOfField(fields[i], key, value);
      MapPrefixSnoc(InfoPairs(fields[..i + 1]), InfoPairs(fields[..i]), fields, i, InfoPair);
      ToMapSnoc(InfoPairs(fields[..i]), (key, value));
      m := m[key := value];
      i := i + 1;
    }
    assert fields[..i] == fields;
    return Some(m);
  }

  /** The body of the `get_info` loop for one field. */
  method InfoField(field: string) returns (key: string, value: string)
    requires InfoFieldOk(field)
    ensures Before(field, ':') == "mac" ==> key == "mac" && value == Drop(field, 5)
    ensures Before(field, ':') != "mac" ==>
      ':' in field && key == Before(field, ':') && value == Before(After(field, ':'), ':')
  {
    if Split(field, ':')[0] == "mac" {
      key, value := "mac", Drop(field, 5);
    } else {
      SplitHasSecond(field, ':');
      var item := Split(field, ':');
      key, value := item[0], item[1];
      SplitSecond(field, ':');
    }
  }

  /** The pair the dictionary receives for one field is what `InfoField` computes. */
  lemma InfoPairOfField(field: string, key: string, value: string)
    requires InfoFieldOk(field)
    requires Before(field, ':') == "mac" ==> key == "mac" && value == Drop(field, 5)
    requires Before(field, ':') != "mac" ==>
      ':' in field && key == Before(field, ':') && value == Before(After(field, ':'), ':')
    ensures InfoPair(field) == (key, value)
  {
    if Before(field, ':') != "mac" {
      SplitSecond(field, ':');
    }
  }

  /** A field other than `mac` keeps only the text between its first and second colon. */
  lemma InfoValueBetweenColons(k: string, v: string, w: string)
    requires ':' !in k && ':' !in v && k != "mac"
    ensures InfoFieldOk(k + ":" + v) && InfoPair(k + ":" + v) == (k, v)
    ensures InfoFieldOk(k + ":" + v + ":" + w) && InfoPair(k + ":" + v + ":" + w) == (k, v)
  {
    assert k + ":" + v == k + [':'] + v;
    SplitCons(k, ':', v);
    SplitNone(v, ':');
    assert k + ":" + v + ":" + w == k + [':'] + (v + [':'] + w);
    SplitCons(k, ':', v + [':'] + w);
    SplitCons(v, ':', w);
  }

  /** The `mac` field keeps everything from its sixth character on. */
  lemma InfoMac(v: string)
    ensures InfoFieldOk("mac:" + v) && InfoPair("mac:" + v) == ("mac", Drop(v, 1))
  {
    SplitCons("mac", ':', v);
    assert "mac:" + v == "mac" + [':'] + v;
  }

  /** The info dictionary's keys are the keys of the fields after `ok`, and the last
      field with a key decides its value. */
  lemma InfoFields(ws: seq<string>, i: nat)
    requires InfoWordsOk(ws) && ws[0] == "ok"
    requires 1 <= i < |ws|
    requires forall j :: i < j < |ws| ==> Before(ws[j], ':') != Before(ws[i], ':')
    ensures InfoOf(ws).Some?
    ensures forall x :: x in InfoOf(ws).value <==> exists j :: 1 <= j < |ws| && Before(ws[j], ':') == x
    ensures InfoOf(ws).value[Before(ws[i], ':')] == InfoPair(ws[i]).1
  {
    var ps := InfoPairs(ws[1..]);
    var keys := FieldKeys(ws);
    InfoPairsKeys(ws);
    assert ps[i - 1] == InfoPair(ws[i]);
    ToMapKeyed(ps, keys, i - 1);
  }

  /** The key of every field after the sentinel word: the text before its first `:`. */
  function FieldKeys(ws: seq<string>): (keys: seq<string>)
    requires |ws| >= 1
    ensures |keys| == |ws| - 1
    ensures forall j :: 0 <= j < |keys| ==> keys[j] == Before(ws[j + 1], ':')
    ensures forall x :: x in keys <==> exists j :: 1 <= j < |ws| && Before(ws[j], ':') == x
  {
    var keys := seq(|ws| - 1, j requires 0 <= j < |ws| - 1 => Before(ws[j + 1], ':'));
    assert forall j :: 1 <= j < |ws| ==> keys[j - 1] == Before(ws[j], ':');
    keys
  }

  lemma InfoPairsKeys(ws: seq<string>)
    requires InfoWordsOk(ws) && ws[0] == "ok"
    ensures forall j :: 0 <= j < |ws| - 1 ==> InfoPairs(ws[1..])[j].0 == FieldKeys(ws)[j]
  {
  }

  /** A dictionary built from pairs with the given keys has exactly those keys. */
  lemma ToMapKeySet(ps: seq<(string, string)>, keys: seq<string>)
    requires |ps| == |keys| && forall j :: 0 <= j < |ps| ==> ps[j].0 == keys[j]
    ensures forall x :: x in ToMap(ps) <==> x in keys
  {
    ToMapKeys(ps);
    forall x | x in keys
      ensures x in ToMap(ps)
    {
      var j :| 0 <= j < |keys| && keys[j] == x;
      assert ps[j].0 == x;
    }
  }

  /** A dictionary built from pairs with the given keys has exactly those keys, and a
      key assigned for the last time at `i` maps to the value assigned there. */
  lemma ToMapKeyed(ps: seq<(string, string)>, keys: seq<string>, i: nat)
    requires |ps| == |keys| && forall j :: 0 <= j < |ps| ==> ps[j].0 == keys[j]
    requires i < |ps| && forall j :: i < j < |keys| ==> keys[j] != keys[i]
    ensures forall x :: x in ToMap(ps) <==> x in keys
    ensures keys[i] in ToMap(ps) && ToMap(ps)[keys[i]] == ps[i].1
  {
    ToMapKeySet(ps, keys);
    ToMapLastWins(ps, i);
  }

  // ---------------------------------------------------------------- M20 file list

  /** One entry of the file listing: the file number, its size and the raw file name. */
  datatype FileEntry = FileEntry(number: string, size: string, name: string)

  /** The characters `rstrip('.txt')` removes: a set, not the suffix `.txt`. */
  const NumberTail: set<char> := {'.', 't', 'x'}

  /** The file number of a name: leading `/` and `0` stripped, then trailing `.`, `t`, `x`. */
  function FileNumber(name: string): string {
    RStrip(LStrip(LStrip(name, {'/'}), {'0'}), NumberTail)
  }

  /** The file number is the middle `name[i:j]` of the name: before it a run of `/` as
      long as it can be and then a run of `0`, after it a run of `.`, `t` and `x`
      characters. */
  lemma FileNumberTrimmed(name: string) returns (slashes: nat, i: nat, j: nat)
    ensures slashes <= i <= j <= |name| && FileNumber(name) == name[i..j]
    ensures forall k :: 0 <= k < slashes ==> name[k] == '/'
    ensures slashes < |name| ==> name[slashes] != '/'
    ensures forall k :: slashes <= k < i ==> name[k] == '0'
    ensures forall k :: j <= k < |name| ==> name[k] in NumberTail
  {
    var s1 := LStrip(name, {'/'});
    var s2 := LStrip(s1, {'0'});
    var r := RStrip(s2, NumberTail);
    assert FileNumber(name) == r;
    slashes, i, j := Layout(name, s1, s2, r);
  }

  /** The layout of `name` once its three runs have been stripped, stated on plain slices. */
  lemma Layout(name: string, s1: string, s2: string, r: string) returns (a: nat, i: nat, j: nat)
    requires |s1| <= |name| && s1 == name[|name| - |s1|..]
    requires s1 == [] || s1[0] != '/'
    requires forall k :: 0 <= k < |name| - |s1| ==> name[k] == '/'
    requires |s2| <= |s1| && s2 == s1[|s1| - |s2|..]
    requires forall k :: 0 <= k < |s1| - |s2| ==> s1[k] == '0'
    requires |r| <= |s2| && r == s2[..|r|]
    requires forall k :: |r| <= k < |s2| ==> s2[k] in NumberTail
    ensures a <= i <= j <= |name| && r == name[i..j]
    ensures forall k :: 0 <= k < a ==> name[k] == '/'
    ensures a < |name| ==> name[a] != '/'
    ensures forall k :: a <= k < i ==> name[k] == '0'
    ensures forall k :: j <= k < |name| ==> name[k] in NumberTail
  {
    a := |name| - |s1|;
    i := |name| - |s2|;
    j := i + |r|;
    assert forall k :: a <= k < i ==> name[k] == s1[k - a];
    assert forall k :: i <= k < |name| ==> name[k] == s2[k - i];
  }

  /** The file number neither starts with `0` nor ends in `.`, `t` or `x`. */
  lemma FileNumberEnds(name: string)
    ensures var r := FileNumber(name); r == [] || (r[0] != '0' && r[|r| - 1] !in NumberTail)
  {
    var s2 := LStrip(LStrip(name, {'/'}), {'0'});
    var r := RStrip(s2, NumberTail);
    assert FileNumber(name) == r;
    if r != [] {
      assert r[0] == s2[0];
    }
  }

  predicate FileItemOk(item: string) {
    item == [] || '-' in item
  }

  /** One non-empty `;`-item `name-size...`. */
  function FileEntryOf(item: string): FileEntry
    requires '-' in item
  {
    SplitHasSecond(item, '-');
    var detail := Split(item, '-');
    FileEntry(FileNumber(detail[0]), detail[1], detail[0])
  }

  predicate FileItemsOk(items: seq<string>) {
    forall k :: 0 <= k < |items| ==> FileItemOk(items[k])
  }

  /** The entries the loop of `list_lineus_files` appends: one per non-empty item. */
  function FileEntries(items: seq<string>): seq<FileEntry>
    requires FileItemsOk(items)
  {
    if items == [] then []
    else
      var n := |items| - 1;
      assert FileItemOk(items[n]);
      FileEntries(items[..n]) + (if items[n] == [] then [] else [FileEntryOf(items[n])])
  }

  /** The reply's condition for `list_lineus_files` not to raise. */
  predicate FilesParsable(raw: seq<Byte>) {
    Plain(raw) && FilesWordsOk(Tokens(raw))
  }

  predicate FilesWordsOk(ws: seq<string>) {
    ws != [] &&
    (ws[0] == "ok" ==>
      |ws| >= 2 &&
      var segments := Split(ws[1], ':');
      segments[0] == "FS" ==> |segments| >= 2 && FileItemsOk(Split(segments[1], ';')))
  }

  /** What `list_lineus_files` returns for the reply `raw` to `M20`. */
  function FilesReply(raw: seq<Byte>): Option<seq<FileEntry>>
    requires FilesParsable(raw)
  {
    FilesOf(Tokens(raw))
  }

  /** The file listing, from the reply's words: there is one exactly when the reply is
      `ok` followed by an `FS:` word, and it holds one entry per non-empty `;`-item of
      that word, named by the item's text before its first `-`. */
  function FilesOf(ws: seq<string>): (r: Option<seq<FileEntry>>)
    requires FilesWordsOk(ws)
    ensures r.Some? <==> ws[0] == "ok" && Split(ws[1], ':')[0] == "FS"
    ensures r.Some? ==>
      var items := NonEmpty(Split(Split(ws[1], ':')[1], ';'));
      |r.value| == |items| &&
      forall k :: 0 <= k < |items| ==>
        r.value[k].name == Before(items[k], '-') && r.value[k].number == FileNumber(r.value[k].name)
  {
    if ws[0] != "ok" then None
    else
      var segments := Split(ws[1], ':');
      if segments[0] != "FS" then None
      else
        FileEntriesInOrder(Split(segments[1], ';'));
        Some(FileEntries(Split(segments[1], ';')))
  }

  /** The loop of `list_lineus_files`. */
  method ParseFileList(raw: seq<Byte>) returns (files: Option<seq<FileEntry>>)
    requires FilesParsable(raw)
    ensures files == FilesReply(raw)
  {
    var fields := Words(Decode(raw));
    var first := fields[0];
    fields := fields[1..];
    if first != "ok" {
      return None;
    }
    var segments := Split(fields[0], ':');
    var tag := segments[0];
    segments := segments[1..];
    if tag != "FS" {
      return None;
    }
    var items := Split(segments[0], ';');
    var info: seq<FileEntry> := [];
    var i := 0;
    while i < |items|
      invariant 0 <= i <= |items|
      invariant info == FileEntries(items[..i])
    {
      assert items[..i + 1][..i] == items[..i];
      if items[i] != [] {
        var entry := FileItem(items[i]);
        FileEntryOfItem(items[i], entry);
        info := info + [entry];
      }
      i := i + 1;
    }
    assert items[..i] == items;
    return Some(info);
  }

  /** The body of the `list_lineus_files` loop for one non-empty item. */
  method FileItem(item: string) returns (entry: FileEntry)
    requires '-' in item
    ensures entry.name == Before(item, '-')
    ensures entry.size == Before(After(item, '-'), '-')
    ensures entry.number == FileNumber(entry.name)
  {
    SplitHasSecond(item, '-');
    var detail := Split(item, '-');
    var number := LStrip(detail[0], {'/'});
    number := LStrip(number, {'0'});
    number := RStrip(number, NumberTail);
    entry := FileEntry(number, detail[1], detail[0]);
    SplitSecond(item, '-');
  }

  /** The entry the listing receives for one item is what `FileItem` computes. */
  lemma FileEntryOfItem(item: string, entry: FileEntry)
    requires '-' in item
    requires entry.name == Before(item, '-')
    requires entry.size == Before(After(item, '-'), '-')
    requires entry.number == FileNumber(entry.name)
    ensures FileEntryOf(item) == entry
  {
    SplitSecond(item, '-');
  }

  lemma {:induction false} NonEmptyAppend(a: seq<string>, b: seq<string>)
    ensures NonEmpty(a + b) == NonEmpty(a) + NonEmpty(b)
  {
    if a != [] {
      assert (a + b)[0] == a[0];
      assert (a + b)[1..] == a[1..] + b;
      NonEmptyAppend(a[1..], b);
      if a[0] == [] {
        calc {
          NonEmpty(a + b);
          NonEmpty(a[1..] + b);
          NonEmpty(a[1..]) + NonEmpty(b);
        }
      } else {
        calc {
          NonEmpty(a + b);
          [a[0]] + NonEmpty(a[1..] + b);
          [a[0]] + (NonEmpty(a[1..]) + NonEmpty(b));
          ([a[0]] + NonEmpty(a[1..])) + NonEmpty(b);
        }
      }
    } else {
      assert a + b == b;
    }
  }

  /** The listing holds one entry per non-empty `;`-item, in the items' order. */
  lemma {:induction false} FileEntriesInOrder(items: seq<string>)
    requires FileItemsOk(items)
    ensures |FileEntries(items)| == |NonEmpty(items)|
    ensures forall k :: 0 <= k < |FileEntries(items)| ==> FileEntries(items)[k] == FileEntryOf(NonEmpty(items)[k])
  {
    if items != [] {
      var n := |items| - 1;
      var init, x := items[..n], items[n];
      assert FileItemsOk(init);
      FileEntriesInOrder(init);
      var fs, ns := FileEntries(items), NonEmpty(items);
      var fi, ni := FileEntries(init), NonEmpty(init);
      FileEntriesSnoc(items);
      NonEmptySnoc(items);
      if x == [] {
        assert fs == fi && ns == ni;
      } else {
        assert fs == fi + [FileEntryOf(x)] && ns == ni + [x];
        MapSnoc(fi, ni, x, FileEntryOf);
      }
    }
  }

  /** Extending both sides of a pointwise image by one more element. */
  lemma MapSnoc<A, B>(ys: seq<B>, xs: seq<A>, x: A, f: A --> B)
    requires f.requires(x) && |ys| == |xs|
    requires forall k :: 0 <= k < |xs| ==> f.requires(xs[k]) && ys[k] == f(xs[k])
    ensures forall k :: 0 <= k < |xs| + 1 ==> f.requires((xs + [x])[k]) && (ys + [f(x)])[k] == f((xs + [x])[k])
  {
  }

  lemma FileEntriesSnoc(items: seq<string>)
    requires FileItemsOk(items) && items != []
    ensures var n := |items| - 1;
      FileItemsOk(items[..n]) && FileItemOk(items[n]) &&
      FileEntries(items) == FileEntries(items[..n]) + (if items[n] == [] then [] else [FileEntryOf(items[n])])
  {
  }

  lemma NonEmptySnoc(items: seq<string>)
    requires items != []
    ensures var n := |items| - 1;
      NonEmpty(items) == NonEmpty(items[..n]) + (if items[n] == [] then [] else [items[n]])
  {
    var n := |items| - 1;
    assert items == items[..n] + [items[n]];
    NonEmptyAppend(items[..n], [items[n]]);
    NonEmptyOne(items[n]);
  }

  lemma NonEmptyOne(x: string)
    ensures NonEmpty([x]) == if x == [] then [] else [x]
  {
    assert [x][1..] == [];
  }

  /** A leading run of characters from the set is stripped and nothing more. */
  lemma {:induction false} LStripRun(p: string, t: string, chars: set<char>)
    requires forall k :: 0 <= k < |p| ==> p[k] in chars
    requires t == [] || t[0] !in chars
    ensures LStrip(p + t, chars) == t
  {
    if p != [] {
      assert (p + t)[1..] == p[1..] + t;
      LStripRun(p[1..], t, chars);
    }
  }

  /** A trailing run of characters from the set is stripped and nothing more. */
  lemma {:induction false} RStripRun(t: string, q: string, chars: set<char>)
    requires forall k :: 0 <= k < |q| ==> q[k] in chars
    requires t == [] || t[|t| - 1] !in chars
    ensures RStrip(t + q, chars) == t
  {
    if q != [] {
      var n := |q| - 1;
      assert (t + q)[..|t + q| - 1] == t + q[..n];
      RStripRun(t, q[..n], chars);
    }
  }

  predicate IsDigits(d: string) {
    forall k :: 0 <= k < |d| ==> '0' <= d[k] <= '9'
  }

  /** A name `/` + zeros + number + `.txt` yields that number, when it has no leading zero. */
  lemma FileNumberOfName(zeros: nat, d: string)
    requires d != [] && IsDigits(d) && d[0] != '0'
    ensures FileNumber("/" + seq(zeros, _ => '0') + d + ".txt") == d
  {
    var z := seq(zeros, _ => '0');
    var name := "/" + z + d + ".txt";
    var tail := d + ".txt";
    assert name == "/" + (z + tail);
    assert tail[0] == d[0];
    LStripRun("/", z + tail, {'/'});
    assert LStrip(name, {'/'}) == z + tail;
    LStripRun(z, tail, {'0'});
    assert LStrip(z + tail, {'0'}) == tail;
    RStripRun(d, ".txt", NumberTail);
  }

  /** A file named `/` + zeros + `.txt` gets the empty string as its number, since
      every character is stripped (as for `/000.txt`). */
  lemma FileNumberZero(zeros: nat)
    ensures FileNumber("/" + seq(zeros, _ => '0') + ".txt") == ""
  {
    var z := seq(zeros, _ => '0');
    var tail := z + ".txt";
    assert "/" + z + ".txt" == "/" + tail;
    assert tail[0] in {'0', '.'};
    LStripRun("/", tail, {'/'});
    LStripRun(z, ".txt", {'0'});
    assert ".txt" == "" + ".txt";
    RStripRun("", ".txt", NumberTail);
  }
}
