/** The log file (mmc_file.c) over a FAT library that may fail at any call. */
module MmcFile {
  import opened Kline

  datatype Err = OK | ERR_INIT | ERR_FS | ERR_NOT_OPEN | ERR_IO

  /** One write to the file: its length, the handle that made it, and whether it is sure to be on the card. */
  datatype Piece = Piece(size: nat, writer: nat, onCard: bool)

  function Total(ps: seq<Piece>): nat {
    if ps == [] then 0 else Total(ps[..|ps| - 1]) + ps[|ps| - 1].size
  }

  /** The pieces after handle `h` has passed on all that it still buffered; other handles' pieces stay. */
  function PassedOn(ps: seq<Piece>, h: nat): seq<Piece> {
    seq(|ps|, i requires 0 <= i < |ps| => ps[i].(onCard := ps[i].onCard || ps[i].writer == h))
  }

  /** No piece was written through the handle, if there is one. */
  predicate NotWrittenBy(ps: seq<Piece>, ref: Option<nat>) {
    ref.Some? ==> forall i :: 0 <= i < |ps| ==> ps[i].writer != ref.value
  }

  lemma {:induction false} SameTotal(ps: seq<Piece>, h: nat)
    ensures Total(PassedOn(ps, h)) == Total(ps)
  {
    if ps != [] {
      var n := |ps| - 1;
      SameTotal(ps[..n], h);
      assert PassedOn(ps, h)[..n] == PassedOn(ps[..n], h);
    }
  }

  lemma TotalSnoc(ps: seq<Piece>, p: Piece)
    ensures Total(ps + [p]) == Total(ps) + p.size
  {
    assert (ps + [p])[..|ps|] == ps;
  }

  /** The FAT library as far as one file is concerned: its contents, the pieces they were written in, and
      its open handles. Handles are closed, flushed and written through only if open. Closing a handle
      brings to the card what was written through that handle, provided the media callbacks pass writes
      on. Whether a call succeeds is up to the caller's parameter. */
  class Fat {
    var contents: Bytes
    var pieces: seq<Piece>
    var handles: set<nat>
    var next: nat

    ghost predicate Valid()
      reads this
    {
      && Total(pieces) == |contents|
      && (forall i :: 0 <= i < |pieces| ==> pieces[i].writer < next)
      && forall h :: h in handles ==> h < next
    }

    /** A file found on the card, made of pieces of the given sizes. */
    constructor (initial: Bytes, found: seq<Piece>)
      requires Total(found) == |initial| && forall i :: 0 <= i < |found| ==> found[i].writer == 0 && found[i].onCard
      ensures Valid() && contents == initial && pieces == found && handles == {}
    {
      contents, pieces, handles, next := initial, found, {}, 1;
    }

    /** Opening for append. */
    method Open(ok: bool) returns (h: Option<nat>)
      requires Valid()
      modifies this
      ensures Valid() && contents == old(contents) && pieces == old(pieces)
      ensures if ok then h.Some? && h.value !in old(handles) && handles == old(handles) + {h.value}
              else h.None? && handles == old(handles)
      ensures h.Some? ==> forall i :: 0 <= i < |pieces| ==> pieces[i].writer != h.value
    {
      if !ok {
        return None;
      }
      h := Some(next);
      handles := handles + {next};
      next := next + 1;
    }

    method Close(h: nat, media: bool)
      requires Valid() && h in handles
      modifies this
      ensures Valid() && contents == old(contents) && handles == old(handles) - {h}
      ensures pieces == if media then PassedOn(old(pieces), h) else old(pieces)
    {
      handles := handles - {h};
      if media {
        SameTotal(pieces, h);
        pieces := PassedOn(pieces, h);
      }
    }

    method Remove(ok: bool)
      requires Valid()
      modifies this
      ensures Valid() && handles == old(handles)
      ensures if ok then contents == [] && pieces == [] else contents == old(contents) && pieces == old(pieces)
    {
      if ok {
        contents, pieces := [], [];
      }
    }

    method Flush(h: nat, ok: bool) returns (status: bool)
      requires Valid() && h in handles
      ensures status == ok
    {
      status := ok;
    }

    function Length(h: nat): (n: nat)
      requires h in handles
      reads this
      ensures n == |contents|
    {
      |contents|
    }

    /** Appends the first `n` bytes; a negative `n` is an error that writes nothing. */
    method Write(h: nat, data: Bytes, n: int)
      requires Valid() && h in handles && n <= |data|
      modifies this
      ensures Valid() && handles == old(handles)
      ensures contents == old(contents) + if n < 0 then [] else data[..n]
      ensures pieces == old(pieces) + if n < 0 then [] else [Piece(n, h, false)]
    {
      if n >= 0 {
        TotalSnoc(pieces, Piece(n, h, false));
        contents, pieces := contents + data[..n], pieces + [Piece(n, h, false)];
      } else {
        assert contents + [] == contents && pieces + [] == pieces;
      }
    }
  }

  class File {
    var isInit: bool
    var enabled: bool
    var ref: Option<nat>
    const fat: Fat

    /** Disabled means no handle, and a handle, if any, is open in the FAT library. */
    ghost predicate Valid()
      reads this, fat
    {
      && fat.Valid()
      && (ref.Some? ==> ref.value in fat.handles)
      && (isInit && !enabled ==> ref.None?)
      && (!isInit ==> ref.None?)
    }

    /** The file's own handle, if it has one. */
    ghost function Own(): set<nat>
      reads this
    {
      if ref.Some? then {ref.value} else {}
    }

    /** Handles that are open but that the file no longer knows. */
    ghost function Lost(): set<nat>
      reads this, fat
    {
      fat.handles - Own()
    }

    /** Nothing has been written through the file's handle yet. */
    ghost predicate Unused()
      reads this, fat
    {
      NotWrittenBy(fat.pieces, ref)
    }

    lemma OneMoreLost()
      ensures |Lost() + Own()| == |Lost()| + if ref.Some? then 1 else 0
    {
      assert Lost() !! Own();
    }

    constructor (fat: Fat)
      requires fat.Valid() && fat.handles == {}
      ensures Valid() && Lost() == {} && this.fat == fat && !isInit
    {
      isInit, enabled, ref := false, false, None;
      this.fat := fat;
    }

    method Init()
      requires Valid()
      modifies this
      ensures Valid() && isInit && enabled && ref.None? && Lost() == old(Lost()) + old(Own())
    {
      ref := None;
      isInit := true;
      enabled := true;
    }

    function InitCheck(checkFile: bool): (e: Err)
      reads this
      ensures e == OK ==> isInit && (checkFile && enabled ==> ref.Some?)
    {
      if !isInit then ERR_INIT
      else if checkFile && enabled && ref.None? then ERR_NOT_OPEN
      else OK
    }

    /** mmc_fopen overwrites the handle: one that was open stays open and is lost. */
    method FOpen(ok: bool) returns (r: Err)
      requires fat.Valid() && isInit
      modifies `ref, fat
      ensures fat.Valid() && fat.contents == old(fat.contents) && fat.pieces == old(fat.pieces)
      ensures r == if ok then OK else ERR_FS
      ensures ref.Some? <==> ok
      ensures ref.Some? ==> ref.value in fat.handles
      ensures fat.handles == old(fat.handles) + if ref.Some? then {ref.value} else {}
      ensures ref.Some? ==> ref.value !in old(fat.handles)
      ensures Unused()
    {
      ref := fat.Open(ok);
      r := if ref.None? then ERR_FS else OK;
    }

    /** mmc_fclose. What the handle still buffers reaches the card only if the file is enabled: the media
        callbacks drop writes of a disabled file, and nobody makes them again. */
    method FClose()
      requires fat.Valid() && isInit && (ref.Some? ==> ref.value in fat.handles)
      modifies `ref, fat
      ensures fat.Valid() && ref.None? && fat.contents == old(fat.contents)
      ensures fat.handles == old(fat.handles) - if old(ref).Some? then {old(ref).value} else {}
      ensures fat.pieces == if old(ref).Some? && enabled then PassedOn(old(fat.pieces), old(ref).value)
                            else old(fat.pieces)
    {
      if ref.Some? {
        fat.Close(ref.value, enabled);
        ref := None;
      }
    }

    method Open(ok: bool) returns (r: Err)
      requires Valid()
      modifies `ref, fat
      ensures Valid() && fat.contents == old(fat.contents) && fat.pieces == old(fat.pieces) && Lost() == old(Lost())
      ensures isInit && enabled ==> ref.Some? == (old(ref).Some? || ok)
      ensures if old(ref).Some? then ref == old(ref) else Unused()
      ensures r == if !isInit then ERR_INIT else if enabled && old(ref).None? && !ok then ERR_FS else OK
    {
      r := InitCheck(false);
      if r == OK && enabled {
        if ref.None? {
          r := FOpen(ok);
        }
      }
    }

    method GetEnabled() returns (e: bool)
      ensures e == (isInit && enabled)
    {
      e := InitCheck(false) == OK && enabled;
    }

    /** mmc_file_set_enabled. Enabling does not look at the handle that may be open already: that handle is
        lost, and no other. Disabling clears the flag first, so that closing saves nothing. */
    method SetEnabled(on: bool, ok: bool) returns (r: Err)
      requires Valid()
      modifies `enabled, `ref, fat
      ensures Valid() && fat.contents == old(fat.contents) && fat.pieces == old(fat.pieces)
      ensures r == if !isInit then ERR_INIT else if on && !ok then ERR_FS else OK
      ensures isInit ==> enabled == if on then (ok || old(enabled)) else false
      ensures isInit ==> ref.Some? == (on && ok) && Unused()
      ensures Lost() == if isInit && on then old(Lost()) + old(Own()) else old(Lost())
    {
      r := InitCheck(false);
      if r == OK {
        if !on {
          if enabled {
            enabled := false;
            FClose();
          }
        } else {
          r := FOpen(ok);
          if r == OK {
            enabled := true;
          }
        }
      }
    }

    method Close() returns (r: Err)
      requires Valid()
      modifies `ref, fat
      ensures Valid() && fat.contents == old(fat.contents) && Lost() == old(Lost())
      ensures fat.pieces == if old(ref).Some? then PassedOn(old(fat.pieces), old(ref).value) else old(fat.pieces)
      ensures r == if isInit then OK else ERR_INIT
      ensures isInit ==> ref.None?
    {
      r := InitCheck(false);
      if r == OK && enabled {
        FClose();
      }
    }

    /** mmc_file_rm. The file is opened again even if it could not be removed. */
    method Rm(rmOk: bool, openOk: bool) returns (r: Err)
      requires Valid()
      modifies `ref, fat
      ensures Valid() && Lost() == old(Lost())
      ensures !(isInit && enabled) ==> fat.contents == old(fat.contents) && fat.pieces == old(fat.pieces)
      ensures isInit && enabled && rmOk ==> fat.contents == [] && fat.pieces == []
      ensures isInit && enabled && !rmOk ==>
        && fat.contents == old(fat.contents)
        && fat.pieces == if old(ref).Some? then PassedOn(old(fat.pieces), old(ref).value) else old(fat.pieces)
      ensures ref.Some? == (isInit && enabled && openOk) && Unused()
      ensures r == if !isInit then ERR_INIT else if enabled && !(rmOk && openOk) then ERR_FS else OK
    {
      r := InitCheck(false);
      if r == OK && enabled {
        FClose();
        fat.Remove(rmOk);
        r := FOpen(openOk);
        if r == OK && !rmOk {
          r := ERR_FS;
        }
      }
    }

    method Size() returns (r: Err, size: nat)
      requires Valid()
      ensures r == InitCheck(true)
      ensures size == if r == OK && enabled then |fat.contents| else 0
    {
      r := InitCheck(true);
      size := 0;
      if r == OK && enabled {
        size := fat.Length(ref.value);
      }
    }

    /** mmc_file_flush; a hard flush closes and opens again. */
    method Flush(hard: bool, ok: bool) returns (r: Err)
      requires Valid()
      modifies `ref, fat
      ensures Valid() && fat.contents == old(fat.contents) && Lost() == old(Lost())
      ensures fat.pieces == if hard && old(ref).Some? then PassedOn(old(fat.pieces), old(ref).value)
                            else old(fat.pieces)
      ensures if hard then Unused() else ref == old(ref)
      ensures r == if old(InitCheck(true)) != OK then old(InitCheck(true)) else if enabled && !ok then ERR_FS else OK
      ensures ref.Some? == if hard && old(InitCheck(true)) == OK && enabled then ok else old(ref).Some?
    {
      r := InitCheck(true);
      if r == OK && enabled {
        if hard {
          FClose();
          r := FOpen(ok);
        } else {
          var status := fat.Flush(ref.value, ok);
          r := if status then OK else ERR_FS;
        }
      }
    }

    /** mmc_file_write of `data`, of which the library reports `n` bytes written. */
    method Write(data: Bytes, n: int) returns (r: Err)
      requires Valid() && n <= |data|
      modifies fat
      ensures Valid() && Lost() == old(Lost())
      ensures r == if InitCheck(true) != OK then InitCheck(true) else if enabled && n != |data| then ERR_IO else OK
      ensures fat.contents == old(fat.contents)
        + if InitCheck(true) == OK && enabled && n >= 0 then data[..n] else []
      ensures fat.pieces == old(fat.pieces)
        + if InitCheck(true) == OK && enabled && n >= 0 then [Piece(n, ref.value, false)] else []
    {
      r := InitCheck(true);
      if r == OK && enabled {
        fat.Write(ref.value, data, n);
        r := if n != |data| then ERR_IO else OK;
      }
    }
  }
}
