/**
  The walk of conf_write and conf_write_defconfig over the menu tree: no
  recursion and no stack, only the list, next and parent pointers.
 */
module MenuWalk {
  import opened Menus

  /** Where in the tree the walk is: below which ancestors, and which of their
      younger siblings are still to come. */
  datatype Context = Top | Below(m: Menu, rest: Forest, outer: Context)

  ghost function Owner(c: Context, root: Menu): Menu {
    if c.Top? then root else c.m
  }

  ghost function Pending(c: Context): seq<Menu> {
    if c.Top? then [] else Preorder(c.rest) + Pending(c.outer)
  }

  ghost function ContextNodes(c: Context): set<Menu> {
    if c.Top? then {} else {c.m} + Nodes(c.rest) + ContextNodes(c.outer)
  }

  ghost function Depth(c: Context): nat {
    if c.Top? then 0 else 1 + Depth(c.outer)
  }

  ghost predicate Surrounds(c: Context, root: Menu)
    reads ContextNodes(c)
  {
    c.Below? ==>
      && c.m.parent == Owner(c.outer, root)
      && Linked(c.m.next, c.rest, Owner(c.outer, root), null)
      && Surrounds(c.outer, root)
  }

  lemma Regroup(v: seq<Menu>, h: seq<Menu>, a: seq<Menu>, b: seq<Menu>, c: seq<Menu>)
    ensures v + (h + a + b + c) == v + h + (a + (b + c))
    ensures [] + a == a && a + [] == a
  {
  }

  /** Moving to the children, to the next sibling or up keeps what is to come. */
  lemma StepInto(visited: seq<Menu>, here: Forest, c: Context)
    requires here.Cons?
    ensures var todo := visited + (Preorder(here) + Pending(c));
      var seen := visited + [here.n.m];
      && todo == seen + (Preorder(here.kids) + Pending(Below(here.n.m, here.rest, c)))
      && (here.kids.Nil? ==> todo == seen + (Preorder(here.rest) + Pending(c)))
      && (here.kids.Nil? && here.rest.Nil? ==> todo == seen + Pending(c))
  {
    var h, a, b, p := [here.n.m], Preorder(here.kids), Preorder(here.rest), Pending(c);
    assert Preorder(here) == h + a + b && Pending(Below(here.n.m, here.rest, c)) == b + p;
    assert (here.kids.Nil? ==> a == []) && (here.rest.Nil? ==> b == []);
    hide Preorder, Pending;
    Regroup(visited, h, a, b, p);
    Regroup([], [], b + p, [], []);
    Regroup([], [], p, [], []);
  }

  lemma StepOut(visited: seq<Menu>, here: Forest, c: Context)
    ensures Preorder(Nil) == [] && Pending(Top) == []
    ensures visited + (Preorder(here) + Pending(Top)) == visited + Preorder(here)
    ensures c.Below? ==> Pending(c) == Preorder(c.rest) + Pending(c.outer)
    ensures c.Below? && c.rest.Nil? ==> Pending(c) == Pending(c.outer)
    ensures visited + [] == visited
  {
  }

  /** Visits exactly the descendants of root, in preorder. */
  method Walk(root: Menu, ghost f: Forest) returns (visited: seq<Menu>)
    requires Linked(root.list, f, root, null)
    requires root.next == null && root.parent == null
    ensures visited == Preorder(f)
  {
    hide Preorder, Pending, Nodes, ContextNodes;
    visited := [];
    var menu := root.list;
    ghost var here, context := f, Top;
    StepOut([], here, context);
    while menu != null
      invariant menu == null ==> visited == Preorder(f)
      invariant menu != null ==>
        && here.Cons? && Linked(menu, here, Owner(context, root), null) && Surrounds(context, root)
        && visited + (Preorder(here) + Pending(context)) == Preorder(f)
      invariant |visited| <= |Preorder(f)|
      decreases menu != null, |Preorder(f)| - |visited|
    {
      ghost var before := visited;
      StepInto(before, here, context);
      visited := visited + [menu];
      if menu.list != null {
        context := Below(menu, here.rest, context);
        here := here.kids;
        menu := menu.list;
      } else if menu.next != null {
        here := here.rest;
        menu := menu.next;
      } else {
        menu := menu.parent;
        while menu != null
          invariant menu == null ==> visited == Preorder(f)
          invariant menu != null ==>
            && menu == Owner(context, root) && Surrounds(context, root)
            && visited + Pending(context) == Preorder(f)
          decreases menu != null, Depth(context)
        {
          StepOut(visited, Nil, context);
          if menu.next != null {
            menu := menu.next;
            here := context.rest;
            context := context.outer;
            break;
          }
          menu := menu.parent;
          if context.Below? {
            context := context.outer;
          }
        }
      }
    }
  }
}
