/** The absent-value wrapper used where the source returns `None`:
    the parent of the root, and the outcome of a descent that met an equal key. */
module Optional {

  datatype Option<+T> = None | Some(value: T)

}
