/** convex/components.ts: the store's mutations and queries over the
    `users`, `userComponents` and `catalogComponents` tables whose record
    shapes convex/schema.ts declares. A table is a sequence of records in
    creation order and a record's id is its position, so an index query
    that returns the `first` match returns the earliest one. The caller's
    identity is the token it was authenticated with, if any, and the clock
    is a parameter. */
module ConvexComponents {
  import opened Wrappers
  import opened Strings
  import opened OrderedMaps

  /** `v.record(v.string(), v.string())`: package name to version. */
  type Deps = Entries<string, string>

  /** A row id: the row's position in its table. */
  type Id = nat

  datatype User = User(name: Option<string>, email: Option<string>, image: Option<string>,
                       tokenIdentifier: string)

  datatype UserComponent = UserComponent(
    projectId: Option<Id>, userId: Id, catalogComponentId: Option<string>,
    name: string, code: string, previewCode: string, globalCss: Option<string>,
    dependencies: Option<Deps>, registryDependencies: Option<seq<string>>, deletedAt: Option<int>)

  datatype CatalogComponent = CatalogComponent(
    name: string, description: string, componentId: string, code: string, previewCode: string,
    category: string, tags: Option<seq<string>>, authorId: Option<Id>, isPublic: bool,
    extraFiles: Option<seq<(string, string)>>, dependencies: Option<Deps>,
    registryDependencies: Option<seq<string>>, globalCss: Option<string>)

  // ---------------------------------------------------------------------
  // Index lookups
  // ---------------------------------------------------------------------

  /** The `by_token` lookup: the first user with the given token. */
  function FindUser(users: seq<User>, token: string): (r: Option<Id>)
    ensures r.Some? ==> r.value < |users| && users[r.value].tokenIdentifier == token
                        && forall j :: 0 <= j < r.value ==> users[j].tokenIdentifier != token
    ensures r.None? <==> forall j :: 0 <= j < |users| ==> users[j].tokenIdentifier != token
  {
    if users == [] then None
    else if users[|users| - 1].tokenIdentifier != token then FindUser(users[..|users| - 1], token)
    else
      var r := FindUser(users[..|users| - 1], token);
      if r.Some? then r else Some(|users| - 1)
  }

  /** `getBySlug`: the id of the first catalog entry with the given
      `componentId`. */
  function GetBySlug(catalog: seq<CatalogComponent>, componentId: string): (r: Option<Id>)
    ensures r.Some? ==> r.value < |catalog| && catalog[r.value].componentId == componentId
                        && forall j :: 0 <= j < r.value ==> catalog[j].componentId != componentId
    ensures r.None? <==> forall j :: 0 <= j < |catalog| ==> catalog[j].componentId != componentId
  {
    if catalog == [] then None
    else if catalog[|catalog| - 1].componentId != componentId then GetBySlug(catalog[..|catalog| - 1], componentId)
    else
      var r := GetBySlug(catalog[..|catalog| - 1], componentId);
      if r.Some? then r else Some(|catalog| - 1)
  }

  /** The `by_user` lookup: the components at positions `from` and above
      whose owner is `userId`, with their ids, in creation order. */
  function OwnedFrom(comps: seq<UserComponent>, userId: Id, from: nat): seq<(Id, UserComponent)>
    requires from <= |comps|
    decreases |comps| - from
  {
    if from == |comps| then []
    else
      var rest := OwnedFrom(comps, userId, from + 1);
      if comps[from].userId == userId then [(from, comps[from])] + rest else rest
  }

  /** Entry `e` is a component of `userId` at position `from` or above,
      paired with its own id. */
  predicate OwnedEntry(comps: seq<UserComponent>, userId: Id, from: nat, e: (Id, UserComponent)) {
    from <= e.0 < |comps| && e.1 == comps[e.0] && e.1.userId == userId
  }

  /** Every entry the lookup lists is a component of `userId` at position
      `from` or above, paired with its own id. */
  lemma {:induction false} OwnedFromSound(comps: seq<UserComponent>, userId: Id, from: nat)
    requires from <= |comps|
    ensures forall e :: e in OwnedFrom(comps, userId, from) ==> OwnedEntry(comps, userId, from, e)
    decreases |comps| - from
  {
    if from < |comps| {
      OwnedFromSound(comps, userId, from + 1);
      var rest := OwnedFrom(comps, userId, from + 1);
      var head := if comps[from].userId == userId then [(from, comps[from])] else [];
      assert OwnedFrom(comps, userId, from) == head + rest;
    }
  }

  /** Every component of `userId` at position `from` or above is listed. */
  lemma {:induction false} OwnedFromComplete(comps: seq<UserComponent>, userId: Id, from: nat)
    requires from <= |comps|
    ensures forall j :: from <= j < |comps| && comps[j].userId == userId ==> (j, comps[j]) in OwnedFrom(comps, userId, from)
    decreases |comps| - from
  {
    if from < |comps| {
      OwnedFromComplete(comps, userId, from + 1);
      var rest := OwnedFrom(comps, userId, from + 1);
      var head := if comps[from].userId == userId then [(from, comps[from])] else [];
      var r := OwnedFrom(comps, userId, from);
      assert r == head + rest;
      forall j | from <= j < |comps| && comps[j].userId == userId
        ensures (j, comps[j]) in r
      {
        if j == from {
          assert r[0] == (j, comps[j]);
        } else {
          assert (j, comps[j]) in rest;
        }
      }
    }
  }

  /** The entries of `r` come in strictly increasing id order. */
  predicate IdsIncreasing(r: seq<(Id, UserComponent)>) {
    forall k, l :: 0 <= k < l < |r| ==> r[k].0 < r[l].0
  }

  /** Putting an entry whose id is below every id of an increasing list in
      front of it keeps the list increasing. */
  lemma ConsIncreasing(x: (Id, UserComponent), rest: seq<(Id, UserComponent)>)
    requires IdsIncreasing(rest)
    requires forall e :: e in rest ==> x.0 < e.0
    ensures IdsIncreasing([x] + rest)
  {
    var r := [x] + rest;
    forall k, l | 0 <= k < l < |r|
      ensures r[k].0 < r[l].0
    {
      assert r[l] == rest[l - 1];
      if k > 0 {
        assert r[k] == rest[k - 1];
      } else {
        assert rest[l - 1] in rest;
      }
    }
  }

  /** The lookup lists its entries in increasing id order. */
  lemma {:induction false} OwnedFromOrdered(comps: seq<UserComponent>, userId: Id, from: nat)
    requires from <= |comps|
    ensures IdsIncreasing(OwnedFrom(comps, userId, from))
    decreases |comps| - from
  {
    if from < |comps| {
      OwnedFromOrdered(comps, userId, from + 1);
      var rest := OwnedFrom(comps, userId, from + 1);
      if comps[from].userId == userId {
        OwnedFromSound(comps, userId, from + 1);
        assert forall e :: e in rest ==> from < e.0 by {
          forall e | e in rest ensures from < e.0 {
            assert OwnedEntry(comps, userId, from + 1, e);
          }
        }
        ConsIncreasing((from, comps[from]), rest);
      }
    }
  }

  /** The lookup lists exactly the components of `userId` from `from` on,
      each with its own id, in increasing id order. */
  lemma OwnedFromSpec(comps: seq<UserComponent>, userId: Id, from: nat)
    requires from <= |comps|
    ensures var r := OwnedFrom(comps, userId, from);
            (forall e :: e in r ==> from <= e.0 < |comps| && e.1 == comps[e.0] && e.1.userId == userId)
            && (forall j :: from <= j < |comps| && comps[j].userId == userId ==> (j, comps[j]) in r)
            && (forall k, l :: 0 <= k < l < |r| ==> r[k].0 < r[l].0)
  {
    OwnedFromSound(comps, userId, from);
    OwnedFromComplete(comps, userId, from);
    OwnedFromOrdered(comps, userId, from);
    assert IdsIncreasing(OwnedFrom(comps, userId, from));
  }

  /** `listUserComponents`: the caller's components, and none when there
      is no caller or no user record for it. */
  function ListUserComponents(identity: Option<string>, users: seq<User>, comps: seq<UserComponent>): seq<(Id, UserComponent)> {
    if identity.None? then []
    else
      var user := FindUser(users, identity.value);
      if user.None? then [] else OwnedFrom(comps, user.value, 0)
  }

  /** An authenticated caller with a user record sees exactly the
      components whose owner is that record, each once, in creation order;
      any other caller sees none. */
  lemma ListSpec(identity: Option<string>, users: seq<User>, comps: seq<UserComponent>)
    ensures var r := ListUserComponents(identity, users, comps);
            var user := if identity.Some? then FindUser(users, identity.value) else None;
            (user.None? ==> r == [])
            && (user.Some? ==> forall j :: 0 <= j < |comps| ==>
                  ((j, comps[j]) in r <==> comps[j].userId == user.value))
            && forall k, l :: 0 <= k < l < |r| ==> r[k].0 < r[l].0
  {
    if identity.Some? && FindUser(users, identity.value).Some? {
      var user := FindUser(users, identity.value).value;
      var r := OwnedFrom(comps, user, 0);
      OwnedFromSpec(comps, user, 0);
      forall j | 0 <= j < |comps| && (j, comps[j]) in r
        ensures comps[j].userId == user
      {
        assert OwnedEntry(comps, user, 0, (j, comps[j]));
      }
    }
  }

  /** A component appended for `userId` is listed last for that user, and
      the lists of other users do not change. */
  lemma {:induction false} OwnedAppend(comps: seq<UserComponent>, c: UserComponent, userId: Id, from: nat)
    requires from <= |comps|
    ensures OwnedFrom(comps + [c], userId, from)
            == OwnedFrom(comps, userId, from) + (if c.userId == userId then [(|comps|, c)] else [])
    decreases |comps| - from
  {
    var all := comps + [c];
    var tail := if c.userId == userId then [(|comps|, c)] else [];
    if from == |comps| {
      assert OwnedFrom(all, userId, from + 1) == [];
      assert all[from] == c;
    } else {
      OwnedAppend(comps, c, userId, from + 1);
      var head := if comps[from].userId == userId then [(from, comps[from])] else [];
      assert all[from] == comps[from];
      assert OwnedFrom(all, userId, from) == head + OwnedFrom(all, userId, from + 1);
      assert OwnedFrom(comps, userId, from) == head + OwnedFrom(comps, userId, from + 1);
      assert head + (OwnedFrom(comps, userId, from + 1) + tail) == head + OwnedFrom(comps, userId, from + 1) + tail;
    }
  }

  // ---------------------------------------------------------------------
  // Records written by the mutations
  // ---------------------------------------------------------------------

  /** The arguments of `createUserComponent`. */
  datatype CreateArgs = CreateArgs(name: string, code: string, previewCode: string,
                                   catalogComponentId: Option<string>, projectId: Option<Id>,
                                   dependencies: Option<Deps>)

  /** The inserted record: the supplied fields and the owner, nothing
      else. */
  function Created(args: CreateArgs, userId: Id): (c: UserComponent)
    ensures c.userId == userId && c.name == args.name && c.code == args.code && c.previewCode == args.previewCode
    ensures c.catalogComponentId == args.catalogComponentId && c.projectId == args.projectId
    ensures c.dependencies == args.dependencies
    ensures c.globalCss.None? && c.registryDependencies.None? && c.deletedAt.None?
  {
    UserComponent(args.projectId, userId, args.catalogComponentId, args.name, args.code, args.previewCode,
                  None, args.dependencies, None, None)
  }

  /** The patch of `updateUserComponent`: the code always, the preview
      code only when a non-empty one is supplied (an empty string is
      falsy), the dependencies whenever supplied (an object, even an empty
      one, is truthy). */
  function Patched(c: UserComponent, code: string, previewCode: Option<string>, dependencies: Option<Deps>): UserComponent {
    c.(code := code,
       previewCode := if previewCode.Some? && previewCode.value != "" then previewCode.value else c.previewCode,
       dependencies := if dependencies.Some? then dependencies else c.dependencies)
  }

  /** The patch writes the supplied code, keeps the preview code unless a
      non-empty one is supplied, keeps the dependencies unless some are
      supplied, touches no other field, and applying it twice is applying
      it once. */
  lemma PatchedSpec(c: UserComponent, code: string, previewCode: Option<string>, dependencies: Option<Deps>)
    ensures var p := Patched(c, code, previewCode, dependencies);
            p.code == code
            && (p.previewCode == c.previewCode <==> previewCode.None? || previewCode.value in {"", c.previewCode})
            && (previewCode.Some? && previewCode.value != "" ==> p.previewCode == previewCode.value)
            && (dependencies.Some? ==> p.dependencies == dependencies)
            && (dependencies.None? ==> p.dependencies == c.dependencies)
            && p.(code := c.code, previewCode := c.previewCode, dependencies := c.dependencies) == c
            && Patched(p, code, previewCode, dependencies) == p
  {
  }

  /** `toLowerCase()` then `replace(/[^a-z0-9]+/g, "-")`. */
  function Slug(name: string): string {
    ReplaceRuns(Lower(name), c => !IsLowerAlnum(c), "-")
  }

  /** A slug holds only `a`–`z`, `0`–`9` and `-`, never two `-` in a
      row, and starts with `-` exactly when the name starts outside the
      letters and digits. */
  lemma SlugSpec(name: string)
    ensures var s := Slug(name);
            (forall i :: 0 <= i < |s| ==> IsLowerAlnum(s[i]) || s[i] == '-')
            && (forall i :: 0 <= i < |s| - 1 ==> !(s[i] == '-' && s[i + 1] == '-'))
            && (s != [] && s[0] == '-' <==> name != [] && !IsLowerAlnum(LowerChar(name[0])))
  {
    var s := Slug(name);
    ReplaceRunsChars(Lower(name), c => !IsLowerAlnum(c), "-");
    ReplaceRunsNoRepeat(Lower(name), c => !IsLowerAlnum(c), '-');
    forall i | 0 <= i < |s| ensures IsLowerAlnum(s[i]) || s[i] == '-' {
      assert s[i] in s;
    }
  }

  /** `existing ? `${slug}-${Date.now()}` : slug` */
  function FinalSlug(slug: string, taken: bool, now: nat): (r: string)
    ensures !taken ==> r == slug
    ensures taken ==> StartsWith(r, slug + "-") && |r| > |slug| + 1
  {
    if taken then slug + "-" + IntToString(now) else slug
  }

  /** The suffixed slug keeps the slug's alphabet, but a slug that ends in
      `-` gets two in a row. */
  lemma FinalSlugSpec(slug: string, now: nat)
    requires forall i :: 0 <= i < |slug| ==> IsLowerAlnum(slug[i]) || slug[i] == '-'
    ensures var r := FinalSlug(slug, true, now);
            (forall i :: 0 <= i < |r| ==> IsLowerAlnum(r[i]) || r[i] == '-')
            && (slug != [] && slug[|slug| - 1] == '-' ==> r[|slug| - 1] == '-' && r[|slug|] == '-')
  {
    var r := FinalSlug(slug, true, now);
    var digits := NatToString(now);
    assert r == slug + "-" + digits;
    forall i | 0 <= i < |r| ensures IsLowerAlnum(r[i]) || r[i] == '-' {
      if i > |slug| {
        assert r[i] == digits[i - |slug| - 1];
      }
    }
  }

  /** A component created by a caller is listed for that caller, last,
      and the list is otherwise unchanged. */
  lemma CreatedIsListed(token: string, users: seq<User>, comps: seq<UserComponent>, args: CreateArgs)
    requires FindUser(users, token).Some?
    ensures var c := Created(args, FindUser(users, token).value);
            ListUserComponents(Some(token), users, comps + [c])
            == ListUserComponents(Some(token), users, comps) + [(|comps|, c)]
  {
    OwnedAppend(comps, Created(args, FindUser(users, token).value), FindUser(users, token).value, 0);
  }

  /** The arguments of `publishComponent`. */
  datatype PublishArgs = PublishArgs(name: string, description: string, category: string)

  /** The catalog entry published from a user component: the given name,
      description and category, the final slug, the component's code,
      preview code and dependencies, public, authored by the component's
      owner; its stylesheet and registry dependencies are not carried
      over. */
  function Published(args: PublishArgs, c: UserComponent, componentId: string): (e: CatalogComponent)
    ensures e.name == args.name && e.description == args.description && e.category == args.category
    ensures e.componentId == componentId
    ensures e.code == c.code && e.previewCode == c.previewCode && e.dependencies == c.dependencies
    ensures e.isPublic && e.authorId == Some(c.userId)
    ensures e.globalCss.None? && e.registryDependencies.None? && e.tags.None? && e.extraFiles.None?
  {
    CatalogComponent(args.name, args.description, componentId, c.code, c.previewCode, args.category,
                     None, Some(c.userId), true, None, c.dependencies, None, None)
  }

  /** The slug a publish writes into `catalog`. */
  function PublishSlug(catalog: seq<CatalogComponent>, name: string, now: nat): string {
    FinalSlug(Slug(name), GetBySlug(catalog, Slug(name)).Some?, now)
  }

  /** A slug that was free finds the new entry afterwards; a taken one is
      suffixed, and the suffixed slug is looked up without a second
      check. */
  lemma PublishFindable(catalog: seq<CatalogComponent>, args: PublishArgs, c: UserComponent, now: nat)
    ensures var slug := PublishSlug(catalog, args.name, now);
            var after := catalog + [Published(args, c, slug)];
            GetBySlug(after, slug).Some?
            && (GetBySlug(catalog, Slug(args.name)).None? ==> GetBySlug(after, slug) == Some(|catalog|))
  {
    var slug := PublishSlug(catalog, args.name, now);
    var after := catalog + [Published(args, c, slug)];
    assert after[|catalog|].componentId == slug;
    if GetBySlug(catalog, Slug(args.name)).None? {
      assert forall j :: 0 <= j < |catalog| ==> after[j] == catalog[j];
    }
  }

  /** The suffixed slug is not checked: when it is taken too, the catalog
      ends up with two entries of that slug and the lookup finds the older
      one. */
  lemma SecondCollision(c: UserComponent)
    ensures var old1 := Published(PublishArgs("A", "", ""), c, "a");
            var old2 := Published(PublishArgs("A", "", ""), c, "a-5");
            var catalog := [old1, old2];
            var slug := PublishSlug(catalog, "A", 5);
            var after := catalog + [Published(PublishArgs("A", "", ""), c, slug)];
            slug == "a-5" && after[1].componentId == after[2].componentId
            && GetBySlug(after, slug) == Some(1)
  {
    var catalog := [Published(PublishArgs("A", "", ""), c, "a"), Published(PublishArgs("A", "", ""), c, "a-5")];
    assert Lower("A") == "a";
    assert Slug("A") == "a";
    assert GetBySlug(catalog, "a") == Some(0) by {
      assert catalog[1].componentId != "a";
    }
    assert IntToString(5) == "5";
    assert PublishSlug(catalog, "A", 5) == "a-5";
  }

  // ---------------------------------------------------------------------
  // The store
  // ---------------------------------------------------------------------

  /** The three tables the mutations touch. */
  class Store {
    var users: seq<User>
    var userComponents: seq<UserComponent>
    var catalog: seq<CatalogComponent>

    constructor(users: seq<User>, userComponents: seq<UserComponent>, catalog: seq<CatalogComponent>)
      ensures this.users == users && this.userComponents == userComponents && this.catalog == catalog
    {
      this.users := users;
      this.userComponents := userComponents;
      this.catalog := catalog;
    }

    /** `createUserComponent`: fails without a caller or without a user
        record for it, inserting nothing; otherwise appends the new record,
        owned by the caller, and returns its id. */
    method CreateUserComponent(identity: Option<string>, args: CreateArgs) returns (r: Result<Id>)
      modifies this
      ensures users == old(users) && catalog == old(catalog)
      ensures identity.None? ==> r == Err("Unauthenticated") && userComponents == old(userComponents)
      ensures identity.Some? && FindUser(users, identity.value).None? ==>
                r == Err("User not found") && userComponents == old(userComponents)
      ensures identity.Some? && FindUser(users, identity.value).Some? ==>
                r == Ok(|old(userComponents)|)
                && userComponents == old(userComponents) + [Created(args, FindUser(users, identity.value).value)]
    {
      if identity.None? {
        return Err("Unauthenticated");
      }
      var user := FindUser(users, identity.value);
      if user.None? {
        return Err("User not found");
      }
      r := Ok(|userComponents|);
      userComponents := userComponents + [Created(args, user.value)];
    }

    /** `updateUserComponent`: fails without a caller or for an unknown
        id, writing nothing; otherwise patches that record. The caller need
        not own the component, nor have a user record. */
    method UpdateUserComponent(identity: Option<string>, id: Id, code: string,
                               previewCode: Option<string>, dependencies: Option<Deps>) returns (r: Result<()>)
      modifies this
      ensures users == old(users) && catalog == old(catalog)
      ensures identity.None? ==> r == Err("Unauthenticated") && userComponents == old(userComponents)
      ensures identity.Some? && id >= |old(userComponents)| ==>
                r == Err("Component not found") && userComponents == old(userComponents)
      ensures identity.Some? && id < |old(userComponents)| ==>
                r == Ok(()) && userComponents == old(userComponents)[id := Patched(old(userComponents)[id], code, previewCode, dependencies)]
    {
      if identity.None? {
        return Err("Unauthenticated");
      }
      if id >= |userComponents| {
        return Err("Component not found");
      }
      userComponents := userComponents[id := Patched(userComponents[id], code, previewCode, dependencies)];
      r := Ok(());
    }

    /** `publishComponent`: fails without a caller or for an unknown id,
        writing nothing; otherwise appends the catalog entry under the
        slug of the name, suffixed with the time when that slug is
        taken. */
    method PublishComponent(identity: Option<string>, id: Id, args: PublishArgs, now: nat) returns (r: Result<()>)
      modifies this
      ensures users == old(users) && userComponents == old(userComponents)
      ensures identity.None? ==> r == Err("Unauthenticated") && catalog == old(catalog)
      ensures identity.Some? && id >= |userComponents| ==> r == Err("Component not found") && catalog == old(catalog)
      ensures identity.Some? && id < |userComponents| ==>
                r == Ok(())
                && catalog == old(catalog) + [Published(args, userComponents[id], PublishSlug(old(catalog), args.name, now))]
    {
      if identity.None? {
        return Err("Unauthenticated");
      }
      if id >= |userComponents| {
        return Err("Component not found");
      }
      var slug := Slug(args.name);
      var existing := GetBySlug(catalog, slug);
      var finalSlug := if existing.Some? then slug + "-" + IntToString(now) else slug;
      catalog := catalog + [Published(args, userComponents[id], finalSlug)];
      r := Ok(());
    }
  }
}
