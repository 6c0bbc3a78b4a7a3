/** The record the image listing endpoint returns for one image. */
module Api {

  /** One image of the listing: its download URL, its id, the label of the
      application it was captured from (the `app` field of its metadata),
      its creation timestamp and its file type. */
  datatype ImageApiResponse = ImageApiResponse(
    url: string,
    imageId: string,
    app: string,
    createdAt: string,
    kind: string)
}
