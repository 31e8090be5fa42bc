/** Names and directory listing of filesystem.c. */
module Directory {
  import opened Bytes
  import opened Options
  import opened FileSystem

  /** The name in a 32-byte field, or the part of a C string that strncmp compares. */
  function NameOf(field: seq<Byte>): seq<Byte> {
    if |field| <= FILENAME_LEN then CStr(field) else CStr(field[..FILENAME_LEN])
  }

  /** Entry `i` is the first of the 63 slots whose name matches; slots past the directory
      count are searched too. */
  ghost predicate FirstMatch(img: Image, fname: seq<Byte>, i: nat) {
    && i < |img.dentries| && NameOf(img.dentries[i].name) == NameOf(fname)
    && forall j :: 0 <= j < i ==> NameOf(img.dentries[j].name) != NameOf(fname)
  }

  /** The slot that read_dentry_by_name finds from slot `i` on. */
  function MatchFrom(img: Image, fname: seq<Byte>, i: nat): (r: Option<nat>)
    requires i <= |img.dentries|
    ensures r.Some? ==> i <= r.value < |img.dentries| && NameOf(img.dentries[r.value].name) == NameOf(fname)
    ensures forall j :: i <= j < (if r.Some? then r.value else |img.dentries|) ==>
      NameOf(img.dentries[j].name) != NameOf(fname)
    decreases |img.dentries| - i
  {
    if i == |img.dentries| then None
    else if NameOf(img.dentries[i].name) == NameOf(fname) then Some(i)
    else MatchFrom(img, fname, i + 1)
  }

  /** What a C string finds: nothing when it is empty, otherwise the first slot with its name. */
  function Lookup(img: Image, fname: seq<Byte>): (r: Option<nat>)
    ensures r.Some? ==> r.value < |img.dentries|
  {
    if StrLen(fname) == 0 then None else MatchFrom(img, fname, 0)
  }

  lemma LookupFindsFirst(img: Image, fname: seq<Byte>, i: nat)
    ensures Lookup(img, fname) == Some(i) <==> StrLen(fname) > 0 && FirstMatch(img, fname, i)
    ensures Lookup(img, fname) == None <==> StrLen(fname) == 0 || forall j: nat :: !FirstMatch(img, fname, j)
  {
    var r := MatchFrom(img, fname, 0);
    if r.Some? {
      assert FirstMatch(img, fname, r.value);
    }
  }

  function Names(img: Image): (r: seq<seq<Byte>>)
    requires Shape(img)
    ensures |r| == img.entries && forall i :: 0 <= i < |r| ==> r[i] == NameOf(img.dentries[i].name)
  {
    seq(img.entries, (i: nat) requires i < |img.dentries| => NameOf(img.dentries[i].name))
  }

  // ----- fs_dir_read as a step of the global dir_count -----

  /** A name in a cleared 32-byte field. */
  function Padded(name: seq<Byte>): (r: seq<Byte>)
    requires |name| <= FILENAME_LEN
    ensures |r| == FILENAME_LEN
  {
    name + Repeat(NUL, FILENAME_LEN - |name|)
  }

  /** What a read inside the directory leaves in the caller's buffer. */
  function DirBuffer(img: Image, count: nat): (r: seq<Byte>)
    requires Shape(img) && count < img.entries
    ensures |r| == FILENAME_LEN
  {
    assert img.dentries[count] in img.dentries;
    Padded(NameOf(img.dentries[count].name))
  }

  function DirResult(img: Image, count: nat): nat
    requires Shape(img) && count <= img.entries
  {
    if count + 1 > img.entries then 0 else |NameOf(img.dentries[count].name)|
  }

  function DirCount(img: Image, count: nat): (r: nat)
    requires Shape(img) && count <= img.entries
    ensures r <= img.entries
  {
    if count + 1 > img.entries then 0 else count + 1
  }

  /** The part of the buffer that the result covers is the name. */
  lemma ReadIsName(img: Image, count: nat)
    requires Shape(img) && count < img.entries
    ensures DirResult(img, count) <= FILENAME_LEN
    ensures DirBuffer(img, count)[..DirResult(img, count)] == Names(img)[count]
  {
    assert img.dentries[count] in img.dentries;
  }

  /** The bytes that the results of reads until the first 0 cover, and the count that leaves. */
  function Listing(img: Image, count: nat): (r: (seq<seq<Byte>>, nat))
    requires Shape(img) && count <= img.entries
    ensures r.1 <= img.entries
    decreases img.entries - count
  {
    if DirResult(img, count) == 0 then ([], DirCount(img, count))
    else
      var rest := Listing(img, DirCount(img, count));
      ReadIsName(img, count);
      ([DirBuffer(img, count)[..DirResult(img, count)]] + rest.0, rest.1)
  }

  lemma {:induction false} ListingFrom(img: Image, count: nat)
    requires Shape(img) && count <= img.entries
    ensures Listing(img, count).0 == Names(img)[count..] <==> [] !in Names(img)[count..]
    ensures [] !in Names(img)[count..] ==> Listing(img, count).1 == 0
    decreases img.entries - count
  {
    var tail := Names(img)[count..];
    if count < img.entries {
      ReadIsName(img, count);
      assert tail == [Names(img)[count]] + Names(img)[count + 1..];
      ListingFrom(img, count + 1);
      if tail[0] != [] {
        assert Listing(img, count).0[1..] == Listing(img, count + 1).0 && tail[1..] == Names(img)[count + 1..];
      } else {
        assert tail[0] in tail;
      }
    }
  }

  /** Any number of listings in a row. */
  function Listings(img: Image, count: nat, n: nat): seq<seq<seq<Byte>>>
    requires Shape(img) && count <= img.entries
    decreases n
  {
    if n == 0 then [] else [Listing(img, count).0] + Listings(img, Listing(img, count).1, n - 1)
  }

  /** Every listing gives each name once, in order, exactly when no name is empty: an
      empty name reads like the end of the directory. */
  lemma {:induction false} EveryListingIsComplete(img: Image, n: nat)
    requires Shape(img) && n > 0
    ensures Listings(img, 0, n) == seq(n, _ => Names(img)) <==> [] !in Names(img)
  {
    ListingFrom(img, 0);
    assert Names(img)[0..] == Names(img);
    assert Listings(img, 0, n)[0] == Listing(img, 0).0;
    assert seq(n, _ => Names(img)) == [Names(img)] + seq(n - 1, _ => Names(img));
    if [] !in Names(img) && n > 1 {
      EveryListingIsComplete(img, n - 1);
    }
  }

  /** A listed name that is not empty, looked up, finds a slot with that name, and its own
      slot exactly when no earlier one has the name; an empty one finds nothing. */
  lemma ListedNameIsFound(img: Image, i: nat)
    requires Shape(img) && i < img.entries
    ensures
      var name := Names(img)[i];
      var found := Lookup(img, name + [NUL]);
      if name == [] then found == None
      else
        && found.Some? && found.value <= i && Names(img)[found.value] == name
        && (found.value == i <==> name !in Names(img)[..i])
  {
    var name := Names(img)[i];
    NameRoundTrip(img.dentries[i].name);
    if name == [] {
      StrLenUnique(name + [NUL], 0);
    } else {
      assert (name + [NUL])[0] == name[0] == img.dentries[i].name[0];
      var found := MatchFrom(img, name + [NUL], 0);
      assert found.Some? && found.value <= i;
      if found.value < i {
        assert Names(img)[..i][found.value] == name;
      }
      if name in Names(img)[..i] {
        var k :| 0 <= k < i && Names(img)[..i][k] == name;
        assert NameOf(img.dentries[k].name) == name;
      }
    }
  }

  lemma NameRoundTrip(field: seq<Byte>)
    requires |field| == FILENAME_LEN
    ensures NameOf(NameOf(field) + [NUL]) == NameOf(field)
  {
    var name := NameOf(field);
    var s := name + [NUL];
    if |s| <= FILENAME_LEN {
      StrLenUnique(s, |name|);
    } else {
      assert s[..FILENAME_LEN] == field;
    }
  }
}
