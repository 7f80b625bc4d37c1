/** The storage package as the handlers see it: the two distinguished error values and the
    calls a handler can make through its URLSaver, URLGetter or URLDeleter interface. */
module Store {

  /** `storage.ErrURLExist`, `storage.ErrURLNotFound`, and every other (opaque) store failure,
      such as a failed prepare, exec or driver call. */
  datatype Error = ErrURLExist | ErrURLNotFound | ErrOther

  /** One call made by a handler into the store. */
  datatype Call =
    | SaveCall(url: string, alias: string)
    | GetCall(alias: string)
    | DeleteCall(alias: string)
}
