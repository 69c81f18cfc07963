/**
Confirming an ingest (internal/httpapi/ingest.go): pictures are files, products are rows of
a transaction, and the two cannot be written together.  Files come first, then the commit,
then whatever turned out unused is removed.  Others use the same files and products all the
while; a crash leaves things as they were at one of the recorded moments.
*/
module IngestConfirm {
  import opened Wrappers

  /** A picture's generated file name. */
  type Name = nat

  /**
  One reviewed row.  A picture is only ever pointed at by a new product; `newName` is the
  normalized form, which is what the store compares (NormalizeCatalogName).
  */
  datatype Decision = Decision(accept: bool, existing: bool, newName: string, picture: Option<Name>)

  /** What files there are, and what pictures the committed products point at. */
  datatype Moment = Moment(files: set<Name>, used: set<Name>)

  /** No product points at one of these pictures that is not there. */
  predicate Intact(m: Moment, mine: set<Name>) { forall n | n in mine && n in m.used :: n in m.files }

  function UsedBy(products: seq<Option<Name>>): set<Name> {
    set p | p in products && p.Some? :: p.value
  }

  /** How the transaction ended, and what was heard of it: a lost answer is an error although it went through. */
  datatype Commit = NotReached | Committed | Refused | LostAnswer

  /** What others have made of the files and products. */
  datatype Meddling = Meddling(files: set<Name>, products: seq<Option<Name>>, nextName: Name)

  // ------------------------------------------------------------- new products

  /** Whether an earlier accepted row already makes a product of this name. */
  predicate MadeBefore(decisions: seq<Decision>, n: nat, name: string)
    requires n <= |decisions|
  {
    exists i | 0 <= i < n :: decisions[i].accept && !decisions[i].existing && decisions[i].newName == name
  }

  predicate Makes(decisions: seq<Decision>, i: nat)
    requires i < |decisions|
  {
    decisions[i].accept && !decisions[i].existing && !MadeBefore(decisions, i, decisions[i].newName)
  }

  /** The pictures of the products that the first n rows make: one product a name, with its first row's picture. */
  function NewPictures(decisions: seq<Decision>, n: nat): seq<Option<Name>>
    requires n <= |decisions|
  {
    if n == 0 then []
    else NewPictures(decisions, n - 1) + if Makes(decisions, n - 1) then [decisions[n - 1].picture] else []
  }

  lemma {:induction false} NewPicturesAre(decisions: seq<Decision>, n: nat, name: Name)
    requires n <= |decisions|
    ensures Some(name) in NewPictures(decisions, n) <==>
              exists i :: 0 <= i < n && Makes(decisions, i) && decisions[i].picture == Some(name)
  {
    if n > 0 { NewPicturesAre(decisions, n - 1, name); }
  }

  /**
  With a picture each, a row's picture is used exactly when the row is the first accepted one to make
  its product.
  */
  lemma FirstRowsPicture(decisions: seq<Decision>, k: nat, name: Name)
    requires k < |decisions| && decisions[k].picture == Some(name)
    requires forall i | 0 <= i < |decisions| && decisions[i].picture == Some(name) :: i == k
    ensures Some(name) in NewPictures(decisions, |decisions|) <==>
              (decisions[k].accept && !decisions[k].existing
               && forall i | 0 <= i < k && decisions[i].accept && !decisions[i].existing ::
                    decisions[i].newName != decisions[k].newName)
  {
    NewPicturesAre(decisions, |decisions|, name);
  }

  // ----------------------------------------------------------------- choices

  /** Accepted rows with a new product, each at most once. */
  ghost predicate Chosen(decisions: seq<Decision>, choices: seq<nat>) {
    && (forall k | 0 <= k < |choices| ::
          choices[k] < |decisions| && decisions[choices[k]].accept && !decisions[choices[k]].existing)
    && (forall j, k | 0 <= j < k < |choices| :: choices[j] != choices[k])
  }

  /** The decision of each choice, and no other, points at its own picture; when none was written, none does. */
  ghost predicate Pointed(before: seq<Decision>, after: seq<Decision>, choices: seq<nat>, written: seq<Name>) {
    && |after| == |before| && (written == [] || |written| == |choices|)
    && (forall i | 0 <= i < |before| :: after[i] == before[i].(picture := after[i].picture))
    && (forall k | 0 <= k < |written| && choices[k] < |after| :: after[choices[k]].picture == Some(written[k]))
    && (forall i | 0 <= i < |after| && after[i].picture.Some? :: exists k :: 0 <= k < |written| && choices[k] == i)
    && (forall j, k | 0 <= j < k < |written| :: written[j] != written[k])
  }

  lemma PointedMore(before: seq<Decision>, now: seq<Decision>, choices: seq<nat>, k: nat, written: seq<Name>,
                    name: Name)
    requires Chosen(before, choices) && k < |choices| && |written| == k && Pointed(before, now, choices[..k], written)
    requires name !in written
    ensures choices[k] < |now|
    ensures Pointed(before, now[choices[k] := now[choices[k]].(picture := Some(name))], choices[..k + 1],
                    written + [name])
  {
    var after := now[choices[k] := now[choices[k]].(picture := Some(name))];
    var more := choices[..k + 1];
    forall i | 0 <= i < |after| && after[i].picture.Some? ensures exists j :: 0 <= j < |more| && more[j] == i {
      if i == choices[k] {
        assert more[k] == i;
      } else {
        var j :| 0 <= j < |written| && choices[..k][j] == i;
        assert more[j] == i;
      }
    }
  }

  // -------------------------------------------------------------------- world

  class World {
    var files: set<Name>
    var products: seq<Option<Name>>
    var nextName: Name
    /** The pictures of the confirm in hand. */
    var mine: set<Name>
    /** Every picture a product has shown: who deletes the last such product removes the file. */
    var shown: set<Name>
    ghost var history: seq<Moment>

    // Not the confirm's to decide, whatever it does: which readings, cuts and saves work,
    // which usage checks and removals do, and what others do at their turns.
    const works: nat -> bool
    const tidies: nat -> bool
    const meddling: nat -> Option<Meddling>
    var calls: nat
    var cleanups: nat
    var turns: nat

    constructor (works: nat -> bool, tidies: nat -> bool, meddling: nat -> Option<Meddling>)
      ensures Valid() && files == {} && products == [] && mine == {} && shown == {} && history == []
      ensures this.works == works && this.tidies == tidies && this.meddling == meddling
    {
      files, products, nextName, mine, shown, history := {}, [], 0, {}, {}, [];
      this.works, this.tidies, this.meddling := works, tidies, meddling;
      calls, cleanups, turns := 0, 0, 0;
    }

    /** Every reading, cut and save since has worked. */
    ghost predicate Worked(from: nat)
      reads this
    {
      forall k | from <= k < calls :: works(k)
    }

    /** Every usage check and removal since has worked. */
    ghost predicate Tidied(from: nat)
      reads this
    {
      forall k | from <= k < cleanups :: tidies(k)
    }

    /** Nobody else does anything. */
    ghost predicate Quiet() { forall k: nat :: meddling(k) == None }

    method Ask() returns (ok: bool)
      modifies this`calls
      ensures calls == old(calls) + 1 && ok == works(old(calls))
    {
      ok := works(calls);
      calls := calls + 1;
    }

    method AskCleanup() returns (ok: bool)
      modifies this`cleanups
      ensures cleanups == old(cleanups) + 1 && ok == tidies(old(cleanups))
    {
      ok := tidies(cleanups);
      cleanups := cleanups + 1;
    }

    ghost predicate Valid()
      reads this
    {
      && (forall n | n in files || n in shown || n in mine :: n < nextName)
      && UsedBy(products) <= shown
      && (history != [] ==> history[|history| - 1] == Now())
      && (forall i, n | 0 <= i < |history| && n in history[i].used :: n < nextName)
    }

    ghost function Now(): Moment
      reads this
    {
      Moment(files, UsedBy(products))
    }

    /** No moment from a given one on shows a broken picture of this confirm. */
    ghost predicate IntactSince(from: nat)
      reads this
    {
      forall i | from <= i < |history| :: Intact(history[i], mine)
    }

    /** Generated names do not repeat. */
    method NewName() returns (name: Name)
      requires Valid()
      modifies this`nextName, this`mine
      ensures Valid() && name !in files && name !in shown && name !in old(mine)
      ensures mine == old(mine) + {name}
      ensures forall i | 0 <= i < |history| :: name !in history[i].used
    {
      name := nextName;
      nextName := nextName + 1;
      mine := mine + {name};
    }

    /** Through a temporary file and a rename: the whole file or none. */
    method Save(name: Name) returns (ok: bool)
      requires Valid() && name in mine
      modifies this`files, this`history, this`calls
      ensures Valid() && files == old(files) + (if ok then {name} else {})
      ensures history == old(history) + [Now()]
      ensures calls == old(calls) + 1 && ok == works(old(calls))
    {
      ok := Ask();
      if ok {
        files := files + {name};
      }
      history := history + [Now()];
    }

    /** On an error the file may be gone or not: its derivatives go after it. */
    method Remove(name: Name) returns (ok: bool)
      requires Valid()
      modifies this`files, this`history, this`cleanups
      ensures Valid() && (files == old(files) || files == old(files) - {name})
      ensures ok ==> files == old(files) - {name}
      ensures history == old(history) + [Now()]
      ensures cleanups == old(cleanups) + 1 && ok == tidies(old(cleanups))
    {
      ok := AskCleanup();
      var gone: bool := *;
      if ok || gone {
        files := files - {name};
      }
      history := history + [Now()];
    }

    predicate Allows(m: Meddling)
      reads this
    {
      && m.nextName >= nextName
      && (forall x | x in mine && x in m.files :: x in files)
      && (forall x | x in mine && x in files && x !in m.files :: x in shown && x !in UsedBy(m.products))
      && (forall x | x in mine && x in UsedBy(m.products) :: x in UsedBy(products))
      && (forall x | x in m.files + UsedBy(m.products) :: x < m.nextName)
    }

    /**
    Everybody else: they may drop a product that shows one of this confirm's pictures, and
    then the file once no product shows it any more, or let another product show one that is
    shown already; but its names are theirs to learn only from products.
    */
    method Others()
      requires Valid()
      modifies this`files, this`products, this`shown, this`nextName, this`history, this`turns
      ensures Valid() && old(shown) <= shown && forall n | n in mine && n in files :: n in old(files)
      ensures forall n | n in mine && n in old(files) && n !in files :: n in old(shown) && n !in UsedBy(products)
      ensures forall n | n in mine && n in shown :: n in old(shown)
      ensures forall n | n in mine && n in UsedBy(products) :: n in UsedBy(old(products))
      ensures history == old(history) + [Now()]
      ensures turns == old(turns) + 1
      ensures var m := meddling(old(turns));
        (files, products) == if m.Some? && old(Allows(m.value)) then (m.value.files, m.value.products)
                             else (old(files), old(products))
    {
      var m := meddling(turns);
      turns := turns + 1;
      if m.Some? && Allows(m.value) {
        assert forall x | x in m.value.files || x in UsedBy(m.value.products) ::
            x in m.value.files + UsedBy(m.value.products);
        files, products, nextName := m.value.files, m.value.products, m.value.nextName;
        shown := shown + UsedBy(products);
      }
      history := history + [Now()];
    }

    /**
    What has happened since: nothing of this confirm's appeared, and what is gone of it was named here
    or is shown no more.
    */
    twostate predicate OnlyLost(from: nat, names: seq<Name>)
      reads this
    {
      && old(history) <= history && from <= |history| && mine == old(mine) && old(cleanups) <= cleanups
      && (forall n | n in mine && n in shown :: n in old(shown))
      && (forall n | n in mine && n in UsedBy(products) :: n in UsedBy(old(products)))
      && (forall i, n | from <= i < |history| && n in history[i].used && n in mine :: n in UsedBy(old(products)))
      && (forall n | n in mine && n in files :: n in old(files))
      && (forall n | n in old(files) && n in mine && n !in names && n !in files ::
            n !in UsedBy(products) && !Quiet())
      && (Quiet() ==> products == old(products))
    }

    method RemoveProductImages(names: seq<Name>)
      requires Valid() && forall n | n in names :: n in mine
      modifies this`files, this`products, this`shown, this`nextName, this`history, this`turns, this`cleanups
      ensures Valid() && OnlyLost(|old(history)|, names)
      ensures turns == old(turns) + |names| && cleanups == old(cleanups) + |names|
      ensures Tidied(old(cleanups)) ==> forall n | n in names :: n !in files
      ensures Intact(old(Now()), mine) && (forall n | n in names :: n !in UsedBy(old(products))) ==>
                Intact(Now(), mine) && IntactSince(|old(history)|)
    {
      ghost var safe := Intact(old(Now()), mine) && forall n | n in names :: n !in UsedBy(old(products));
      for k := 0 to |names|
        invariant Valid() && OnlyLost(|old(history)|, names)
        invariant turns == old(turns) + k && cleanups == old(cleanups) + k
        invariant Tidied(old(cleanups)) ==> forall j | 0 <= j < k :: names[j] !in files
        invariant safe ==> Intact(Now(), mine) && IntactSince(|old(history)|)
      {
        RemoveOne(names[k]);
      }
    }

    method RemoveOne(name: Name)
      requires Valid() && name in mine
      modifies this`files, this`products, this`shown, this`nextName, this`history, this`turns, this`cleanups
      ensures Valid() && OnlyLost(|old(history)|, [name])
      ensures turns == old(turns) + 1 && cleanups == old(cleanups) + 1
      ensures Tidied(old(cleanups)) ==> name !in files
      ensures Intact(old(Now()), mine) && name !in UsedBy(old(products)) ==>
                Intact(Now(), mine) && IntactSince(|old(history)|)
    {
      Others();
      var _ := Remove(name);
    }

    /** One picture: cut or read, then saved; None when either fails. */
    method WriteOne() returns (name: Option<Name>)
      requires Valid() && Unused()
      modifies this`files, this`products, this`shown, this`nextName, this`mine, this`history, this`turns, this`calls
      ensures Valid() && Unused() && old(history) <= history && old(mine) <= mine && old(calls) < calls
      ensures forall n | n in mine && n in files :: (n in old(mine) && n in old(files)) || name == Some(n)
      ensures forall n | n in old(mine) && n in old(files) :: n in files
      ensures name.Some? ==> name.value in mine && name.value in files && name.value !in old(mine)
      ensures name == None <==> !Worked(old(calls))
      ensures turns == old(turns) + 1 && if name.Some? then calls == old(calls) + 2 else !works(calls - 1)
    {
      Others();
      name := None;
      var cut := Ask();
      if cut {
        var own := NewName();
        var ok := Save(own);
        if ok {
          name := Some(own);
        }
      }
    }

    /** No product points at any picture of this confirm yet. */
    ghost predicate Unused()
      reads this
    {
      && (forall n | n in shown :: n !in mine)
      && (forall i, n | 0 <= i < |history| && n in history[i].used :: n !in mine)
    }

    /** What the writing takes: nothing without a choice, else the job and the photo, and two for each picture. */
    static function Steps(choices: nat, ready: bool): nat {
      if choices == 0 then 0 else if !ready then 1 else 2 + 2 * choices
    }

    /**
    Cuts and saves the pictures one after the other and points each one's decision at it.
    When one fails, those written before it are removed.  A job not ready for review gets none.
    */
    method WriteProductImages(decisions: array<Decision>, choices: seq<nat>, ready: bool)
      returns (written: seq<Name>, ok: bool)
      requires Valid() && mine == {} && Chosen(decisions[..], choices)
      requires forall i | 0 <= i < decisions.Length :: decisions[i].picture == None
      modifies this`files, this`products, this`shown, this`nextName, this`mine
      modifies this`history, this`turns, this`calls, this`cleanups
      modifies decisions
      ensures Valid() && Unused() && old(history) <= history && old(calls) <= calls && old(cleanups) <= cleanups
      ensures ok ==> AllThere(written) && Pointed(old(decisions[..]), decisions[..], choices, written)
      ensures ok ==> |written| == if ready then |choices| else 0
      ensures if ok then calls == old(calls) + Steps(|choices|, ready) else calls > old(calls) && !works(calls - 1)
      ensures !ok ==> written == [] && (Tidied(old(cleanups)) ==> forall n | n in mine :: n !in files)
      ensures ok <==> Worked(old(calls))
    {
      written, ok := [], true;
      if |choices| == 0 {
        return;
      }
      ok := Ask();                            // the job
      if !ok || !ready {
        return;
      }
      ok := Ask();                            // the photo
      if !ok {
        return;
      }
      written, ok := WriteAll(decisions, choices);
    }

    method WriteAll(decisions: array<Decision>, choices: seq<nat>) returns (written: seq<Name>, ok: bool)
      requires Valid() && Unused() && mine == {} && Chosen(decisions[..], choices)
      requires forall i | 0 <= i < decisions.Length :: decisions[i].picture == None
      modifies this`files, this`products, this`shown, this`nextName, this`mine
      modifies this`history, this`turns, this`calls, this`cleanups
      modifies decisions
      ensures Valid() && Unused() && old(history) <= history && old(calls) <= calls && old(cleanups) <= cleanups
      ensures ok ==> AllThere(written) && |written| == |choices|
      ensures if ok then calls == old(calls) + 2 * |choices| else calls > old(calls) && !works(calls - 1)
      ensures ok ==> Pointed(old(decisions[..]), decisions[..], choices, written)
      ensures !ok ==> written == [] && (Tidied(old(cleanups)) ==> forall n | n in mine :: n !in files)
      ensures ok <==> Worked(old(calls))
    {
      written, ok := [], true;
      ghost var before := decisions[..];
      for k := 0 to |choices|
        invariant Valid() && Unused() && old(history) <= history && |written| == k
        invariant calls == old(calls) + 2 * k && Worked(old(calls)) && cleanups == old(cleanups)
        invariant AllThere(written) && Pointed(before, decisions[..], choices[..k], written)
      {
        var name := WriteOne();
        if name == None {
          TakeBack(written);
          return [], false;
        }
        PointedMore(before, decisions[..], choices, k, written, name.value);
        decisions[choices[k]] := decisions[choices[k]].(picture := name);
        written := written + [name.value];
      }
      assert choices[..|choices|] == choices;
    }

    /** Removes what was written before something failed. */
    method TakeBack(written: seq<Name>)
      requires Valid() && Unused() && AllThere(written)
      modifies this`files, this`products, this`shown, this`nextName, this`history, this`turns, this`cleanups
      ensures Valid() && Unused() && old(history) <= history && old(cleanups) <= cleanups
      ensures Tidied(old(cleanups)) ==> forall n | n in mine :: n !in files
    {
      RemoveProductImages(written);
    }

    /** The written pictures are this confirm's, and all of its files. */
    ghost predicate AllThere(written: seq<Name>)
      reads this
    {
      (forall n | n in mine && n in files :: n in written) && (forall n | n in written :: n in mine && n in files)
    }

    /** The transaction: all of the new products or none; what is heard of it may be an error either way. */
    method ConfirmIngestion(decisions: array<Decision>, fate: Commit)
      requires Valid() && fate != NotReached
      requires forall i | 0 <= i < decisions.Length && decisions[i].picture.Some? :: decisions[i].picture.value in mine
      modifies this`products, this`shown, this`history
      ensures Valid() && history == old(history) + [Now()]
      ensures products == old(products) +
                if fate == Refused then [] else NewPictures(decisions[..], decisions.Length)
    {
      if fate == Committed || fate == LostAnswer {
        PicturesAmong(decisions[..], decisions.Length, mine);
        UsedByMore(products, NewPictures(decisions[..], decisions.Length));
        products := products + NewPictures(decisions[..], decisions.Length);
        shown := shown + UsedBy(products);
      }
      history := history + [Now()];
    }

    /** A product used the picture at some moment. */
    ghost predicate WasUsed(from: nat, n: Name)
      reads this
    {
      exists i :: from <= i < |history| && n in history[i].used
    }

    /** A usage check of the picture that worked. */
    ghost predicate Answered(written: seq<Name>, from: nat, n: Name) {
      exists k :: 0 <= k < |written| && written[k] == n && tidies(from + k)
    }

    /** Asks of each picture whether a product uses it; when the answer fails the picture is kept. */
    method FindUnused(written: seq<Name>) returns (unused: seq<Name>)
      requires Valid() && forall n | n in written :: n in mine
      modifies this`files, this`products, this`shown, this`nextName, this`history, this`turns, this`cleanups
      ensures Valid() && OnlyLost(|old(history)|, [])
      ensures Intact(old(Now()), mine) ==> Intact(Now(), mine) && IntactSince(|old(history)|)
      ensures turns == old(turns) + |written| && cleanups == old(cleanups) + |written|
      ensures forall n | n in unused :: n !in UsedBy(products) && Answered(written, old(cleanups), n)
      ensures Tidied(old(cleanups)) ==> forall n | n in written && n !in unused :: WasUsed(|old(history)|, n)
      ensures Tidied(old(cleanups)) && Quiet() ==> forall n | n in written && n !in unused :: n in UsedBy(products)
    {
      unused := [];
      ghost var from := |history|;
      for k := 0 to |written|
        invariant Valid() && OnlyLost(|old(history)|, [])
        invariant Intact(old(Now()), mine) ==> Intact(Now(), mine) && IntactSince(|old(history)|)
        invariant turns == old(turns) + k && cleanups == old(cleanups) + k
        invariant forall n | n in unused :: n !in UsedBy(products) && Answered(written, old(cleanups), n)
        invariant Tidied(old(cleanups)) ==>
                    forall j | 0 <= j < k && written[j] !in unused :: WasUsed(|old(history)|, written[j])
        invariant Tidied(old(cleanups)) && Quiet() ==>
                    forall j | 0 <= j < k && written[j] !in unused :: written[j] in UsedBy(products)
      {
        var keep := KeepsFile(written[k], from);
        if !keep {
          unused := unused + [written[k]];
        }
      }
    }

    /** One usage check: true when a product uses the picture, or nobody could say. */
    method KeepsFile(name: Name, ghost from: nat) returns (keep: bool)
      requires Valid() && name in mine && from <= |history|
      modifies this`files, this`products, this`shown, this`nextName, this`history, this`turns, this`cleanups
      ensures Valid() && OnlyLost(|old(history)|, []) && old(history) <= history
      ensures Intact(old(Now()), mine) ==> Intact(Now(), mine) && IntactSince(|old(history)|)
      ensures turns == old(turns) + 1 && cleanups == old(cleanups) + 1
      ensures !keep ==> name !in UsedBy(products) && tidies(old(cleanups))
      ensures Tidied(old(cleanups)) && keep ==> name in UsedBy(products) && WasUsed(from, name)
      ensures forall n | old(WasUsed(from, n)) :: WasUsed(from, n)
    {
      ghost var earlier := history;
      Others();
      assert forall i | from <= i < |earlier| :: history[i] == earlier[i];
      var answered := AskCleanup();
      keep := !answered || name in UsedBy(products);
      assert history[|history| - 1] == Now();
    }

    method DiscardUnusedProductImages(written: seq<Name>, confirmed: bool)
      requires Valid() && forall n | n in written :: n in mine
      modifies this`files, this`products, this`shown, this`nextName, this`history, this`turns, this`cleanups
      ensures Valid() && OnlyLost(|old(history)|, written)
      ensures Intact(old(Now()), mine) && (confirmed || forall n | n in written :: n !in UsedBy(old(products))) ==>
                Intact(Now(), mine) && IntactSince(|old(history)|)
      ensures Tidied(old(cleanups)) && !confirmed ==> forall n | n in written :: n !in files
      ensures Tidied(old(cleanups)) && confirmed ==>
                forall n | n in written && n in files :: WasUsed(|old(history)|, n)
      ensures Tidied(old(cleanups)) && confirmed && Quiet() ==>
                forall n | n in written && n in files :: n in UsedBy(products)
      ensures !confirmed ==> turns == old(turns) + |written| && cleanups == old(cleanups) + |written|
      ensures confirmed && Quiet() ==>
                forall n | n in mine && n in old(files) && n !in files :: Answered(written, old(cleanups), n)
    {
      if |written| == 0 {
        return;
      }
      if !confirmed {
        RemoveProductImages(written);
        return;
      }
      var unused := FindUnused(written);
      RemoveProductImages(unused);
    }

    /** Committing decisions that point only at pictures that are there. */
    method CommitPointed(decisions: array<Decision>, written: seq<Name>, fate: Commit)
      requires Valid() && Unused() && fate != NotReached && forall n | n in written :: n in mine && n in files
      requires forall i | 0 <= i < decisions.Length && decisions[i].picture.Some? ::
                 decisions[i].picture.value in written
      modifies this`products, this`shown, this`history
      ensures Valid() && history == old(history) + [Now()]
      ensures Intact(Now(), mine) && IntactSince(0)
      ensures forall n | n in mine ::
                n in UsedBy(products) <==> fate != Refused && Some(n) in NewPictures(decisions[..], decisions.Length)
      ensures forall n | n in mine && n in UsedBy(products) :: n in written
    {
      PicturesAmong(decisions[..], decisions.Length, set n | n in written);
      UsedByMore(products, NewPictures(decisions[..], decisions.Length));
      assert products + [] == products;
      ConfirmIngestion(decisions, fate);
    }

    /** The written pictures that the decisions' new products show. */
    static function Showing(decisions: seq<Decision>, written: seq<Name>): set<Name> {
      set n | n in written && Some(n) in NewPictures(decisions, |decisions|)
    }

    /** The commit and the cleanup after it. */
    method CommitAndDiscard(decisions: array<Decision>, written: seq<Name>, fate: Commit)
      requires Valid() && Unused() && fate != NotReached && AllThere(written)
      requires forall i | 0 <= i < decisions.Length && decisions[i].picture.Some? ::
                 decisions[i].picture.value in written
      modifies this`files, this`products, this`shown, this`nextName, this`history, this`turns, this`cleanups
      ensures Valid() && old(history) <= history && mine == old(mine) && old(cleanups) <= cleanups
      ensures fate != LostAnswer || Showing(decisions[..], written) == {} ==> Intact(Now(), mine) && IntactSince(0)
      ensures fate == LostAnswer && Showing(decisions[..], written) != {} && Quiet() && Tidied(old(cleanups)) ==>
                !Intact(Now(), mine)
      ensures Tidied(old(cleanups)) && fate != Committed ==> forall n | n in mine :: n !in files
      ensures fate != Committed ==> turns == old(turns) + 1 + |written| && cleanups == old(cleanups) + |written|
      ensures Tidied(old(cleanups)) && fate == Committed ==> forall n | n in mine && n in files :: WasUsed(0, n)
      ensures Tidied(old(cleanups)) && fate == Committed && Quiet() ==>
                forall n | n in mine :: n in files <==> n in UsedBy(products)
      ensures fate == Committed && Quiet() ==>
                forall n | n in mine :: n in UsedBy(products) <==> n in Showing(decisions[..], written)
    {
      Others();
      CommitPointed(decisions, written, fate);
      ghost var pictures := Showing(decisions[..], written);
      assert forall n | n in mine :: n in UsedBy(products) <==> fate != Refused && n in pictures;
      DiscardUnusedProductImages(written, fate == Committed);
    }

    /** Some row that asked for a picture makes its product. */
    static ghost predicate ShowsOne(decisions: seq<Decision>, choices: seq<nat>) {
      exists k :: 0 <= k < |choices| && choices[k] < |decisions| && Makes(decisions, choices[k])
    }

    /**
    The whole confirm.  No moment of it shows a broken picture, unless some chosen row makes
    its product and the transaction went through and its answer was lost; then, with nobody
    else at work, a product is left that points at a removed file.
    */
    method Confirm(decisions: array<Decision>, choices: seq<nat>, ready: bool, fate: Commit) returns (outcome: Commit)
      requires Valid() && mine == {} && Chosen(decisions[..], choices) && fate != NotReached
      requires forall i | 0 <= i < decisions.Length :: decisions[i].picture == None
      modifies this`files, this`products, this`shown, this`nextName, this`mine
      modifies this`history, this`turns, this`calls, this`cleanups
      modifies decisions
      ensures Valid() && old(history) <= history
      ensures outcome == if Worked(old(calls)) then fate else NotReached
      // Safety, in every run and at every moment of it.
      ensures outcome != LostAnswer || !ready || !ShowsOne(old(decisions[..]), choices) ==>
                Intact(Now(), mine) && IntactSince(0)
      ensures outcome == LostAnswer && ready && ShowsOne(old(decisions[..]), choices)
              && Quiet() && Tidied(old(cleanups)) ==>
                !Intact(Now(), mine)
      // Cleanup, whatever failed before it.
      ensures Tidied(old(cleanups)) && outcome != Committed ==> forall n | n in mine :: n !in files
      ensures Tidied(old(cleanups)) && outcome == Committed ==>
                forall n | n in mine && n in files :: WasUsed(0, n)
      ensures Tidied(old(cleanups)) && outcome == Committed && Quiet() ==>
                forall n | n in mine :: n in files <==> n in UsedBy(products)
      // What the products show.
      ensures outcome == Committed && ready && Quiet() ==>
                forall k | 0 <= k < |choices| ::
                  && decisions[choices[k]].picture.Some? && decisions[choices[k]].picture.value in mine
                  && (decisions[choices[k]].picture.value in UsedBy(products) <==>
                        Makes(old(decisions[..]), choices[k]))
    {
      ghost var before := decisions[..];
      var written, ok := WriteProductImages(decisions, choices, ready);
      if !ok {
        return NotReached;
      }
      outcome := fate;
      OnlyWritten(before, decisions[..], choices, written);
      PicturesShown(before, decisions[..], choices, written);
      CommitAndDiscard(decisions, written, fate);
    }
  }

  /** One new product with a picture, everything works, nobody else is there, and the commit's answer is lost. */
  method LostAnswerBreaksAPicture() returns (w: World, ghost name: Name)
    ensures fresh(w) && name in w.mine && name in UsedBy(w.products) && name !in w.files
  {
    w := new World(_ => true, _ => true, _ => None);
    var decisions := new Decision[1](_ => Decision(true, false, "Oats", None));
    assert Makes(decisions[..], 0);
    assert World.ShowsOne(decisions[..], [0]) by { assert [0][0] == 0; }
    var outcome := w.Confirm(decisions, [0], true, LostAnswer);
    assert outcome == LostAnswer && !Intact(w.Now(), w.mine);
    name :| name in w.mine && name in UsedBy(w.products) && name !in w.files;
  }

  /** A written picture is shown exactly when its row makes its product. */
  lemma PictureShown(before: seq<Decision>, after: seq<Decision>, choices: seq<nat>, written: seq<Name>, k: nat)
    requires Chosen(before, choices) && Pointed(before, after, choices, written) && k < |written|
    ensures Some(written[k]) in NewPictures(after, |after|) <==> Makes(before, choices[k])
  {
    NewPicturesAre(after, |after|, written[k]);
    assert after[choices[k]].picture == Some(written[k]);
    SameMakes(before, after, choices[k]);
    forall i | 0 <= i < |after| && after[i].picture == Some(written[k]) ensures i == choices[k] {
      var j :| 0 <= j < |written| && choices[j] == i;
      assert after[choices[j]].picture == Some(written[j]);
    }
  }

  /** Which of the written pictures the new products show. */
  lemma PicturesShown(before: seq<Decision>, after: seq<Decision>, choices: seq<nat>, written: seq<Name>)
    requires Chosen(before, choices) && Pointed(before, after, choices, written)
    requires forall i | 0 <= i < |before| :: before[i].picture == None
    ensures forall k | 0 <= k < |written| ::
              Some(written[k]) in NewPictures(after, |after|) <==> Makes(before, choices[k])
    ensures World.Showing(after, written) != {} ==> World.ShowsOne(before, choices)
    ensures |written| == |choices| && World.ShowsOne(before, choices) ==> World.Showing(after, written) != {}
  {
    forall k | 0 <= k < |written|
      ensures Some(written[k]) in NewPictures(after, |after|) <==> Makes(before, choices[k])
    {
      PictureShown(before, after, choices, written, k);
    }
    if n :| n in World.Showing(after, written) {
      var k :| 0 <= k < |written| && written[k] == n;
      assert Makes(before, choices[k]);
    }
    if k :| 0 <= k < |choices| && choices[k] < |before| && Makes(before, choices[k]) && |written| == |choices| {
      assert written[k] in World.Showing(after, written);
    }
  }

  lemma OnlyWritten(before: seq<Decision>, after: seq<Decision>, choices: seq<nat>, written: seq<Name>)
    requires Chosen(before, choices) && Pointed(before, after, choices, written)
    ensures forall i | 0 <= i < |after| && after[i].picture.Some? :: after[i].picture.value in written
  {
    forall i | 0 <= i < |after| && after[i].picture.Some? ensures after[i].picture.value in written {
      var k :| 0 <= k < |written| && choices[k] == i;
      assert after[choices[k]].picture == Some(written[k]);
    }
  }

  lemma SameMakes(before: seq<Decision>, after: seq<Decision>, i: nat)
    requires |after| == |before| && i < |before|
    requires forall j | 0 <= j < |before| :: after[j] == before[j].(picture := after[j].picture)
    ensures Makes(after, i) <==> Makes(before, i)
  {
    assert after[i].newName == before[i].newName;
    assert forall j | 0 <= j < i :: after[j].accept == before[j].accept && after[j].existing == before[j].existing
                                    && after[j].newName == before[j].newName;
  }

  lemma {:induction false} PicturesAmong(decisions: seq<Decision>, n: nat, names: set<Name>)
    requires n <= |decisions|
    requires forall i | 0 <= i < |decisions| && decisions[i].picture.Some? :: decisions[i].picture.value in names
    ensures forall x | x in UsedBy(NewPictures(decisions, n)) :: x in names
  {
    if n > 0 {
      PicturesAmong(decisions, n - 1, names);
      UsedByMore(NewPictures(decisions, n - 1), if Makes(decisions, n - 1) then [decisions[n - 1].picture] else []);
    }
  }

  lemma UsedByMore(a: seq<Option<Name>>, b: seq<Option<Name>>)
    ensures UsedBy(a + b) == UsedBy(a) + UsedBy(b)
  {
  }
}
